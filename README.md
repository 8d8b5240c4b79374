# DNC mass-emailer: a Dafny model of its harvesting logic

The repository holds two nearly identical browser-automation scripts.
`windowsDNCfinder.py` is the newer one and `windowsDNCfinderold.py` the older one.
Each script does the following:

1. It makes sure a browser driver is present in a local cache.
2. It logs into a CRM web page and lists the contact folders in the navigation bar.
3. It asks the operator to pick a folder.
4. It takes every other row of that folder's contact table.
5. It collects the `mailto:` addresses of those rows and ticks each row's checkbox.
6. It moves the ticked contacts to the "DNC" (do-not-call) list, handling a confirmation dialog when one appears.
7. It opens a mail draft that blind-copies every collected address.

This project models the data logic inside that automation. Every page lookup becomes an input value:

- a navigation entry is a `Folder(name, id)`;
- a table row is a `Row` (the `href` of each of its links, and whether its checkbox becomes clickable);
- a folder's table is a function `grid` from the folder id to its rows;
- the confirmation dialog is a `ConfirmPage` (which of its three waits find their element);
- the operator's replies to the folder prompt are a sequence of `Option<int>`. `None` is a reply that `int()` rejects.

The scripts share almost all of their logic, so one module per stage serves both:

- `Text`: `startswith`, `split`, `join`, `capitalize`
- `Folders`: the folder list and the choice loop
- `Harvest`: the parity filter, the address set and the checkbox loop
- `Mutation`: the DNC move and the confirmation dialog
- `Provision`: the driver decision of each script
- `Draft`: the first name, the blind-copy field and the recipient
- `Session`: one browser session from the folder list to the draft

`NewScript.Run` and `OldScript.Run` compose the stages for each script. They differ only in provisioning.

The loops of the source are methods, each proved against a specification function:

- `Folders.BuildFolders` against `Folders.UpToSentinel`
- `Folders.ChooseFolder` against `Folders.FirstAccepted`
- `Harvest.HarvestRows` against `Harvest.Addresses`
- `Draft.Enumerate` against `Draft.Enumerates`

The expressions of the source are functions. The properties the scripts rely on are lemmas about those functions.

## Behaviour worth knowing

- The folder list includes the entry with the empty name, because it is appended before the `break`. The accepted range `1..len(folders)` therefore includes it. Five named folders followed by the empty one give six acceptable replies, and reply 6 selects the unnamed entry (`Folders.SentinelIsSelectable`).
- The re-prompt message names `final_folder` as the upper bound. When the list ends with the empty-named entry, that bound is one less than the largest accepted reply; otherwise it is 0.
- The DNC move is clicked even when no row was kept. Only the confirmation dialog depends on the row count: it is handled when more than one row was kept.
- The newer script fetches a fixed archive (version 140.0.3456.0) whatever the browser's version is. The per-version address it builds is never used.

## Line correspondence between the two scripts

The table below cites the newer script for the shared members. The same logic sits in the older script at these lines:

- Folder list: new 140-152, old 118-130.
- Choice loop: new 155-167, old 133-145.
- Parity filter: new 180, old 158.
- Address set and checkbox loop: new 178-199, old 156-177.
- DNC move and confirmation: new 201-233, old 179-211.
- First name: new 118, old 96.
- Blind-copy field: new 240 and 265, old 218 and 243.
- Recipient: new 267, old 245.
- Subject: new 248, old 226.

## Model

| member | source | states |
|---|---|---|
| `Text.Capitalize` | windowsDNCfinder.py:118 | Same length as the input; each character is the input's up to ASCII case; the first is not a lower-case letter; no later one is upper-case |
| `Text.Split` | windowsDNCfinder.py:118 | `str.split(sep)` always gives at least one part, and no part contains the separator |
| `Text.FirstPartBeforeSeparator` | windowsDNCfinder.py:118 | `split('@')[0]` is a prefix of the string without '@', ending at the first '@' or at the end of the string |
| `Text.JoinSplit` | windowsDNCfinder.py:265 | Joining the parts of a split with the separator gives back the string |
| `Text.SplitJoin` | windowsDNCfinder.py:265 | Splitting a join of one or more separator-free parts gives back exactly those parts |
| `Folders.UpToSentinelPrefix` | windowsDNCfinder.py:144-152 | The folder list is a prefix of the entries, in page order |
| `Folders.UpToSentinelNamed` | windowsDNCfinder.py:144-152 | Every entry of the list before its last has a non-empty name |
| `Folders.UpToSentinelEndsAtEmpty` | windowsDNCfinder.py:147-152 | The list ends with an empty-named entry exactly when some entry has an empty name (the sentinel is appended before the `break`) |
| `Folders.UpToSentinelAllNamed` | windowsDNCfinder.py:144-152 | With no empty name, every entry is kept |
| `Folders.UpToSentinelAfter` | windowsDNCfinder.py:144-152 | Over a prefix of named entries, the list is that prefix followed by the list of the rest |
| `Folders.BuildFolders` | windowsDNCfinder.py:140-152 | The enumeration loop returns the entries up to and including the first empty-named one. `final_folder` is that entry's index, or 0 when there is none |
| `Folders.FirstAccepted` | windowsDNCfinder.py:155-160 | The first reply n with `1 <= n <= len(folders)`; every earlier reply is rejected; `None` when no reply is accepted |
| `Folders.ChooseFolder` | windowsDNCfinder.py:155-167 | The loop stops at the first accepted reply n and yields index n - 1, which is in range. A reply that is not an integer prints the `NotANumber` notice ("Invalid input. Please enter a number."); an integer out of range prints the `final_folder` bound; one notice per rejected reply. If the replies run out, no folder is chosen |
| `Folders.SentinelIsSelectable` | windowsDNCfinder.py:141-158 | With k named entries before the empty one, the list has k + 1 entries, the printed bound is k, and reply k + 1 is accepted and selects the unnamed entry |
| `Harvest.EvenIndexed` | windowsDNCfinder.py:180 | n rows keep (n + 1) / 2. The i-th kept row is row 2i, and every even-indexed row is kept, in order |
| `Harvest.LinkAddressesMembership` | windowsDNCfinder.py:186-193 | An address comes from a row exactly when one of its links is a non-empty `mailto:` href whose text after the 7-character prefix is that address |
| `Harvest.AddressesMembership` | windowsDNCfinder.py:184-193 | An address is in the set exactly when some kept row has a `mailto:` link naming it |
| `Harvest.LinkAddressesBound` | windowsDNCfinder.py:186-193 | A row contributes no more addresses than it has `mailto:` links |
| `Harvest.AddressesBound` | windowsDNCfinder.py:178-193 | The set never has more addresses than there are `mailto:` links, because duplicates merge |
| `Harvest.HarvestRows` | windowsDNCfinder.py:178-199 | With every checkbox clickable: the set is the addresses of all kept rows, and the checkboxes are clicked once each, in row order. Otherwise the loop stops at the first row whose checkbox wait times out. That row's addresses are already taken and only the earlier rows are clicked |
| `Mutation.ConfirmDialog` | windowsDNCfinder.py:213-232 | "confirm" is typed exactly when the primary button and the text box appear. The dialog is confirmed exactly when all three elements appear; otherwise the timeout is caught |
| `Mutation.Mutate` | windowsDNCfinder.py:201-233 | The move is always clicked. The dialog is skipped exactly when at most one row was kept. When it is handled, a missing element is reported as the step that timed out, and the run goes on |
| `Provision.ProvisionNew` | windowsDNCfinder.py:71-98 | A missing or empty browser version exits. An existing driver proceeds exactly when its version equals the browser's; otherwise (a different or unreadable version) the script exits. An absent driver is fetched from the fixed 140.0.3456.0 archive, extracted, and its archive removed |
| `Provision.ProvisionOld` | windowsDNCfinderold.py:70-78 | Never calls `sys.exit`. Fetches, extracts and removes the archive exactly when the driver is absent, always from the 131.0.2903.51 address |
| `Draft.FirstName` | windowsDNCfinder.py:117-118 | The text before the first '@' (all of it when there is none), up to case. Its first character is not a lower-case letter and no later character is an upper-case letter |
| `Draft.Enumerate` | windowsDNCfinder.py:240 | `list(emails)` lists each element of the set exactly once, in an unspecified order |
| `Draft.DistinctCountsOnce` | windowsDNCfinder.py:240 | An element of a list without repeats occurs in it exactly once |
| `Draft.BccListsEachAddressOnce` | windowsDNCfinder.py:240-265 | For a non-empty set of addresses without ';', splitting the blind-copy field on ';' gives back the list. Each address occurs once, and nothing else occurs |
| `Draft.Compose` | windowsDNCfinder.py:240-267 | Fixed subject; the first name in the greeting; the blind-copy field is the ';'-join of an enumeration of the set ("" for an empty set, and it splits back into the enumeration); the primary recipient is the login address |
| `Session.RunSession` | windowsDNCfinder.py:108-267 | The re-prompt notices are one per rejected reply, each naming `final_folder` as its bound. Replies that run out abort. Otherwise the first accepted folder is opened and its even-indexed rows kept. A checkbox timeout aborts at the first such row. Otherwise the addresses, clicks, mutation and draft are as the stages state |
| `NewScript.Run` | windowsDNCfinder.py:70-267 | A session opens exactly when the browser version is known and any existing driver matches it, and then behaves as `Session.RunSession` states |
| `OldScript.Run` | windowsDNCfinderold.py:66-245 | The session always opens, after a fetch exactly when the driver is absent, and behaves as `Session.RunSession` states |

## Left out

- Browser automation (`find_element(s)`, `click`, `execute_script`, `ActionChains`, `WebDriverWait`, `implicitly_wait`): each lookup's result is an input. The model assumes that the login fields, the folder elements, the table, the move button and the DNC option are found. When the source does not find them, it raises an error out of the session; the model leaves these failures out. The checkbox and confirmation-dialog waits are the two it models.
- Mutation.Mutate: assumes the wait for the DNC option succeeds. In the source, a timeout there (windowsDNCfinder.py:205-207) propagates and ends the run.
- Sleeps and wait durations: timing only.
- The registry query, the driver's `--version` call and their regular expressions: these are foreign processes. Their parsed results are the `Option<string>` inputs of `Provision.ProvisionNew`.
- The download, zip extraction, `os.makedirs` and `os.remove`: file and network effects, recorded as the `SetupStep` list. Download failures are not modelled. In the newer script a failed download is caught and printed, and then extracting the missing archive raises. In the older script `urlretrieve` (windowsDNCfinderold.py:31) has no `try`, so a failed download ends the script.
- Package installation (`pip install`, the pywin32 post-install step of the older script): only prepares the environment.
- The mail client (`win32com` dispatch, `CreateItem`, `Display`): a foreign COM interface. The body is a fixed template; only the name put into it (`greetingName`) is modelled.
- The credentials prompt, the password, the login click and the browser teardown in `finally`: console and browser effects with no data logic. The login address is a parameter.
- Console output is not modelled: the numbered folder menu, the row count, the printed addresses and the "Press Enter to exit" wait. The re-prompt notices are the exception: `Folders.ChooseFolder` models them, and `Session.RunSession` and both `Run` methods carry them in their outcome.
- Python's `int()` parsing: abstracted to `Option<int>`.
- Text.Capitalize: changes the case of ASCII letters only. Python's `str.capitalize` also changes the case of other Unicode letters and title-cases the first character.
- Draft.FirstName: inherits that limit of `Text.Capitalize`, so the greeting name of a login with non-ASCII letters before the '@' may differ from Python's.
- Set iteration order: `Draft.Enumerate` chooses an order nondeterministically, and the blind-copy properties hold for every order.
