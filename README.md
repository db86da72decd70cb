# BillSplitter allocation and reconciliation, modelled in Dafny

This project models the two pieces of BillSplitter that hold real logic.

- **The shared-cost allocator** (`SplitCalculatorAgent.calculate_split`) takes a
  parsed wireless bill. It adds up the shared charges and divides them equally among
  the bill's users. Each user's own total is added to their part, and the result is
  rounded to cents. Each user is keyed by an e-mail when the phone-to-e-mail contact
  map knows their phone number, and by their name otherwise. The bill's declared
  total and each user's items are passed through unchanged.
- **The expense split reconciler** (the split-building part of
  `_add_expense_to_splitwise_logic`) first picks the first ledger group whose
  lower-cased name contains the lower-cased filter. It then builds the expense
  participants in one of two modes:
  - Explicit mode, for a non-empty e-mail -> amount split. Each e-mail is resolved
    to a group member id, falling back to the current user. An unknown e-mail
    fails. The amounts must add up to within 0.05 of the expense total.
  - Equal mode, otherwise. Each member owes the total over n, rounded to cents,
    and the last member also absorbs the remainder. An empty group fails.

  In both modes the current user is the single payer.

Files:

- `wrappers.dfy`: `Option` and `Result`.
- `money.dfy`: money in cents, rounding of the exact fraction a/d cents to cents, sums.
- `dicts.dfy`: a dictionary filled by in-order updates, where the last write wins.
- `split_calculator.dfy`: the allocator (module `SplitCalculator`).
- `mcp_server.dfy`: the group lookup and the reconciler (module `McpServer`).

Each `for` loop of the source is a method with loop invariants:
- `CalculateSplit`: the loop over the users (`split_calculator.py:41`).
- `FindGroup`: the loop over the groups (`mcpServer.py:76`).
- `BuildExplicitUsers`: the loop over the explicit splits (`mcpServer.py:102`).
- `BuildEqualUsers`: the loop over the members (`mcpServer.py:141`).

`AddExpenseToSplitwiseLogic` has no loop of its own. It calls `FindGroup` and then
one of the two builders. The generator that adds up the shared charges
(`split_calculator.py:29`) is `TotalShared`, that is `Money.Sum` of the charges' amounts. The e-mail -> id
dict comprehension (`mcpServer.py:98`) is the recursive function `MemberMap`.

`CalculateSplit`, `BuildExplicitUsers`, `BuildEqualUsers` and
`AddExpenseToSplitwiseLogic` are proved equal to specification functions
(`Allocate`, `ExplicitSplit`, `EqualSplit`, `PrepareExpense`). The group lookup is
specified directly. The promised properties are lemmas about those functions.

Modelling choices:

- **Money is whole cents (`int`).** Bill amounts, split amounts and totals are whole
  cents. The allocator's `total_shared / num_users` is not a whole number of cents,
  so it stays exact as a fraction until it is rounded.
- **Rounding.** `round(x, 2)` is `Money.RoundHalfEven`: the nearest cent, with ties
  going to the even cent. The tie rule applies to the exact value a/d. The program
  rounds a binary float instead. At most decimal half cents the stored float is a
  little above or below the tie, and that error decides the direction (see "Left
  out"). Half cents that are exact binary fractions (x.125, x.375, x.625, x.875) are
  true ties. There Python rounds to even, as the model does: `round(0.125, 2)` is 0.12.
- **Dictionaries.** The `splits` and `details` dicts and the e-mail -> id dict are
  built by in-order updates, so a repeated key keeps its last value. The output dicts
  are Dafny maps, which have no order (see "Left out"). The request's `splits` dict
  is read in order, so it is a sequence of `SplitEntry` in insertion order.
- **Falsy values.** The source tests values for truth, and the model keeps those
  tests. An empty contact map acts like no map. An empty phone number or e-mail acts
  like none. An empty `splits` dict selects equal mode. A member id of 0 counts as
  "not found", so resolution falls back to the current user.
- **The contact map's key.** The docstring of `calculate_split` calls the map
  "User Name -> Email", and the sample in that file's `__main__` is keyed by names.
  The code looks the map up by phone number, and `graph.py` passes its phone -> e-mail
  map. The model follows the code. `KeyResolutionExample` shows that a map entry
  keyed by a name is never used.
- **Unit tests.** `tests/test_logic.py` reads `result.user_splits`, but `SplitResult`
  has no such field; the allocator's result field is `splits`. The two test
  scenarios are modelled against `splits`.
- **Failures.** The failure responses (`success=False` and a message) are the typed
  errors `GroupNotFound`, `MemberNotFound`, `SplitsMismatch` and `NoMembers`. The
  message texts are not modelled.

## Model

| member | source | states |
|---|---|---|
| Money.RoundHalfEven | BillSplitter/agents/split_calculator.py:62 | `round(·, 2)` of a/d cents is a whole number of cents within half a cent of a/d, and on an exact tie it is the even one |
| Money.RoundHalfEvenUnique | BillSplitter/agents/split_calculator.py:62 | the nearest-cent and tie-to-even properties determine the rounded value uniquely |
| Money.RoundWhole | BillSplitter/splitwise_mcp/mcpServer.py:139 | rounding an amount that is already whole cents leaves it unchanged, so the equal-split remainder is exact |
| Money.SumAppend | BillSplitter/splitwise_mcp/mcpServer.py:100-123 | the running sum of a list of amounts is additive over concatenation; it is the one sum behind the shared total, the explicit check total and the owed total |
| Dicts.AssignDomain | BillSplitter/agents/split_calculator.py:62-63 | after in-order updates the dict holds exactly the keys that were written |
| Dicts.AssignLastWrite | BillSplitter/agents/split_calculator.py:62-63 | after in-order updates each key holds the value of its last update (last write wins) |
| SplitCalculator.TotalSharedAppend | BillSplitter/agents/split_calculator.py:29 | the shared total is the sum of the shared charges' amounts, additive over concatenation, and 0 for none |
| SplitCalculator.SharedPortion | BillSplitter/agents/split_calculator.py:36-65 | the recorded shared portion is the shared total over n rounded to the nearest cent, with an exact half cent going to the even cent, and 0 with no users (no division by zero) |
| SplitCalculator.FinalAmount | BillSplitter/agents/split_calculator.py:46-62 | a user's split is the cent amount nearest to user total + shared total / n, with ties to even, or the user total itself when n = 0 |
| SplitCalculator.ResolveKey | BillSplitter/agents/split_calculator.py:49-55 | the key is the mapped e-mail exactly when a map is given, the user has a non-empty phone, the map holds it and the e-mail is non-empty; otherwise it is the user's name |
| SplitCalculator.CalculateSplit | BillSplitter/agents/split_calculator.py:24-74 | the loop over the users produces exactly the specified result, and `total_bill` is the bill's declared total, not a recomputed sum |
| SplitCalculator.AllocateDomain | BillSplitter/agents/split_calculator.py:41-63 | a key is in `splits` (and then in `details`) exactly when some user resolves to it: no user is dropped and no other key appears |
| SplitCalculator.AllocateLastWriteWins | BillSplitter/agents/split_calculator.py:41-67 | under a key, `splits` holds the rounded split of the last user with that key; `details` holds that user's own total, the rounded shared portion and their items unchanged |
| SplitCalculator.AllocateNoUsers | BillSplitter/agents/split_calculator.py:35-41 | with zero users both `splits` and `details` are empty, and the declared total still passes through |
| SplitCalculator.RoundingDriftPrefix | BillSplitter/agents/split_calculator.py:41-62 | over the first k users, the rounding errors of the splits add up to at most half a cent per user (scaled by n) |
| SplitCalculator.SplitsSumDrift | BillSplitter/agents/split_calculator.py:36-62 | the per-user rounded splits (one per user, before any are merged under a shared key) add up to the users' totals plus the shared total, to within n/2 cents; they are the `splits` map's values when the users' resolved keys are distinct |
| SplitCalculator.BasicSplitExample | BillSplitter/tests/test_logic.py:14-32 | shared 20.00 and users Alice 30.00 and Bob 50.00 give Alice 40.00 and Bob 60.00, with total_bill 100.00 |
| SplitCalculator.NoSharedCostsExample | BillSplitter/tests/test_logic.py:34-47 | with no shared charges each split is the user's own total: Alice 30.00, Bob 50.00 |
| SplitCalculator.KeyResolutionExample | BillSplitter/agents/split_calculator.py:49-55 | a user whose phone is in the map is keyed by the e-mail; a user without a phone keeps their name even if the map holds that name |
| McpServer.LowerChar | BillSplitter/splitwise_mcp/mcpServer.py:77 | a lower-cased character is never an upper-case ASCII letter: an upper-case letter becomes the lower-case letter at the same place in the alphabet, and any other character is unchanged |
| McpServer.Lower | BillSplitter/splitwise_mcp/mcpServer.py:77 | a lower-cased string has the same length and no upper-case ASCII letter; each upper-case letter becomes its lower-case partner and every other character stays in place |
| McpServer.LowerIdempotent | BillSplitter/splitwise_mcp/mcpServer.py:77 | lower-casing twice gives the same string as lower-casing once |
| McpServer.SameUpToCaseLower | BillSplitter/splitwise_mcp/mcpServer.py:77 | two strings that differ only in ASCII case lower-case to the same string |
| McpServer.GroupMatchesIgnoresCase | BillSplitter/splitwise_mcp/mcpServer.py:77 | changing the case of the filter or of the group name does not change whether the group matches |
| McpServer.ContainsAt | BillSplitter/splitwise_mcp/mcpServer.py:77 | the substring test holds exactly when the needle occurs at some offset of the haystack |
| McpServer.FindGroup | BillSplitter/splitwise_mcp/mcpServer.py:75-82 | the lookup finds nothing exactly when no group matches, and otherwise returns the first matching group |
| McpServer.MissingCharNoMatch | BillSplitter/splitwise_mcp/mcpServer.py:77 | a filter with a character that the group name lacks never matches |
| McpServer.GroupMatchExample | BillSplitter/splitwise_mcp/mcpServer.py:77 | the match ignores case: "at&t" matches "AT&T Family" |
| McpServer.GroupMismatchExample | BillSplitter/splitwise_mcp/mcpServer.py:77 | "at&t" does not match "Roommates" |
| McpServer.MemberMapDomain | BillSplitter/splitwise_mcp/mcpServer.py:98 | the e-mail -> id map holds exactly the non-empty e-mails of the group's members |
| McpServer.MemberMapLast | BillSplitter/splitwise_mcp/mcpServer.py:98 | an e-mail maps to the id of the last member that has it |
| McpServer.ResolveMember | BillSplitter/splitwise_mcp/mcpServer.py:103-104 | an e-mail of the group, with a non-zero id, resolves to the id of its last member |
| McpServer.ResolveOutsideGroup | BillSplitter/splitwise_mcp/mcpServer.py:103-109 | an e-mail no member has resolves to the current user's id when it is their e-mail, and to nothing otherwise |
| McpServer.ExplicitUsersFailureStays | BillSplitter/splitwise_mcp/mcpServer.py:109 | a failure in the first k split entries returns early: it is the failure of the whole split |
| McpServer.ExplicitUsersResolved | BillSplitter/splitwise_mcp/mcpServer.py:102-122 | the entries are built exactly when every e-mail resolves; then there is one per split entry, in split order, with the resolved id, owed share equal to the amount and the single-payer paid share |
| McpServer.ExplicitUnknownMember | BillSplitter/splitwise_mcp/mcpServer.py:103-109 | the first e-mail that resolves to nobody fails the split with that e-mail, whatever the amounts |
| McpServer.ExplicitTolerance | BillSplitter/splitwise_mcp/mcpServer.py:123-127 | when every e-mail resolves, the split fails exactly when the amounts differ from the total by more than 0.05, and the failure carries both totals; otherwise the entries owe the given amounts, in order |
| McpServer.ExplicitMismatchExample | BillSplitter/splitwise_mcp/mcpServer.py:126-127 | 40.00 + 65.00 against 100.00 fails with observed 105.00 and expected 100.00 |
| McpServer.BuildExplicitUsers | BillSplitter/splitwise_mcp/mcpServer.py:96-127 | the explicit-mode loop, with its early return and running total, produces exactly the specified explicit split |
| McpServer.EqualSplitShape | BillSplitter/splitwise_mcp/mcpServer.py:131-157 | an empty group fails with NoMembers; otherwise there is one entry per member, in member order, with that member's id; all owe the base share except the last, who owes base plus the remainder |
| McpServer.Remainder | BillSplitter/splitwise_mcp/mcpServer.py:138-139 | the remainder is rounded to cents as the source does, and it is exactly what the n base shares leave of the total |
| McpServer.EqualShareNearest | BillSplitter/splitwise_mcp/mcpServer.py:135-139 | the base share is the cent amount nearest to total / n, and the remainder the last member absorbs is at most n/2 cents |
| McpServer.EqualPrefixSum | BillSplitter/splitwise_mcp/mcpServer.py:141-147 | the first k entries, all owing the base share, owe k times the base share |
| McpServer.EqualSplitSum | BillSplitter/splitwise_mcp/mcpServer.py:135-147 | in cents, the owed shares of the equal split add up exactly to the expense total |
| McpServer.EqualSplitExample | BillSplitter/splitwise_mcp/mcpServer.py:135-155 | 100.00 among three members owes 33.33, 33.33 and 33.34, and only the current user's entry paid 100.00 |
| McpServer.BuildEqualUsers | BillSplitter/splitwise_mcp/mcpServer.py:129-157 | the equal-mode loop produces exactly the specified equal split |
| McpServer.SinglePayer | BillSplitter/splitwise_mcp/mcpServer.py:115-155 | in both modes, every entry whose id is the current user's paid the whole total and every other entry paid 0 |
| McpServer.AddExpenseToSplitwiseLogic | BillSplitter/splitwise_mcp/mcpServer.py:74-159 | with no matching group the result is GroupNotFound; otherwise it is the expense for the first matching group: its cost and description, "USD", with participants from the reconciler or the reconciler's failure |

## Left out

- Creating the expense (`createExpense`) and its error or success response: a network call into the Splitwise client library.
- The other Splitwise client calls (`getGroups`, `getCurrentUser`, `getMembers`): a network call into the Splitwise client library. Their results are the inputs `groups` and `currentUser`.
- The FastMCP server, the `add` demo tool and `get_group_information`: RPC wrappers that copy library objects into records.
- The bill parser, the WhatsApp notifier, the Splitwise agent wrapper, the workflow graph, `main.py` and `verify_splits.py`: LLM, messaging, file and console I/O, and sequencing.
- Floating point: amounts are whole cents and fractions are exact. So the model does not reproduce the float error in the three `round` calls (`split_calculator.py:62`, `:65` and `mcpServer.py:135`), in `total_owed_check`, in `split_amount * num_members` or in the 0.05 comparison. At the `round` calls this can move a result by a whole cent. For example, with 0.05 shared between 2 users, the float 0.05 / 2 is stored just above 0.025, so the program records a shared portion of 0.03. The model's exact tie goes to the even cent, 0.02 (`SharedPortion(5, 2) == 2`; `FinalAmount` and `BaseShare` behave the same way). Half cents that are exact binary fractions, such as 0.25 / 2 = 0.125, are stored exactly, and there the program and the model agree. The float sum `amount += remainder` at `mcpServer.py:147` is not reproduced either. For 100.00 among three members, 33.33 + 0.01 is the float 33.339999999999996, and `str(amount)` at `:149` sends that string as the last owed share, where the model has 3334 cents. At a deviation of exactly 0.05 the model accepts the split, while the float check may accept or reject it.
- Missing dictionary fields: the `.get` defaults for a missing amount, total or item list never apply. The parsed-bill record always carries these fields.
- Message strings: failures are typed errors. The allocator's description is modelled as a string.
- A warning when the declared total differs from the sum of the charges: the code does not compute one. Only the pass-through of the declared total is modelled.
- The iteration order of the allocator's `splits` and `details` dicts: they are Dafny maps. Python keeps a key in the position of its first insertion, which decides the order of the expense's participants downstream and which unknown e-mail is reported first. The model keeps only the keys and their values. The request's `splits` is an ordered sequence, so the reconciler's order is modelled from its input.
- McpServer.Lower: lower-cases ASCII letters only, because Python's `str.lower` applies Unicode case mappings, which the model does not include.
