# E-ceruza backend: accounts, groups, tasks and messages

This project models the backend of the E-ceruza student planner.

- **Accounts** (`backend/users.py`). A display name becomes a username such as `anna_kovacs42` (for "Kovács Anna"). Registration hashes the password and stores a row in the `User` table. Login looks a user up by username, or by email when no username matches, and checks the password against the stored hash.
- **Application state** (`backend/app.py`). The planner keeps four in-memory dictionaries: `groups`, `group_members`, `tasks` and `messages`. Route handlers create, list and delete groups, add members to groups, add, list and delete tasks, and send, list and delete messages.

The project has four modules, one file each:

| file | module | what it holds |
|---|---|---|
| `wrappers.dfy` | `Wrappers` | `Option` and `Result` |
| `names.dfy` | `Names` | the pure username pipeline |
| `users.dfy` | `Users` | the `User` table as a class; the generation loop, registration and login as methods |
| `planner.dfy` | `Planner` | the four stores as map fields of the class `App`; one method per state-changing handler; the group and task listings as functions; the message listing as the method `GetUserMessages` and its loop |

**The username pipeline** (`Names`) runs these steps in order:

`fold` (unidecode) → `Lower` → `KeepAllowed` (`re.sub(r'[^a-z\s]', '', …)`) → `Strip` → `Split` → `BaseHandle` → `ReplaceSpaces` → base + `str(draw)`

Whitespace is the set Python's `str.isspace`, `strip`, `split` and `\s` use.

**HTTP replies** are the `Planner.Outcome` datatype. `Planner.StatusCode` gives the HTTP status the source sends with each outcome.

**Invariants.** `App.Valid` is the invariant that every handler keeps:

- the `User` table keeps its `id`, `email` and `username` columns unique;
- every group:
  - is stored under its own id;
  - has a `group_members` entry equal to its `members` list;
  - lists its creator first;
  - holds no id twice;
  - holds only ids of users;
- every task and every message is stored under its own id;
- a task's creator, and a message's sender and recipient, are users;
- a task's group id is not checked: `AddTask` stores it as given.

## Model

| member | source | states |
|---|---|---|
| `Names.IsSpace` | backend/users.py:10-11 | whitespace is the code points Python's `str.isspace`, `.strip()`, `.split()` and `\s` treat as whitespace: `\t`–`\r`, `\x1c`–`\x1f`, space, `\x85`, `\xa0`, `\u1680`, `\u2000`–`\u200a`, `\u2028`, `\u2029`, `\u202f`, `\u205f` and `\u3000`; `StripEdges`, `SplitAtSpace` and `Split` state what the steps do with them |
| `Names.Lower` | backend/users.py:8 | `.lower()`: same length; no uppercase ASCII letter remains; a position holds a lowercase letter exactly when the input held a letter; an uppercase letter becomes the same letter in lowercase; every other character is unchanged |
| `Names.LowerOfLowercase` | backend/users.py:8 | `.lower()` leaves a string without uppercase ASCII letters unchanged |
| `Names.LowerIdempotent` | backend/users.py:8 | lowercasing twice gives the same string as lowercasing once |
| `Names.KeepAllowed` | backend/users.py:10 | `re.sub(r'[^a-z\s]', '', s)`: every kept character is `a-z` or whitespace |
| `Names.KeepAllowedOfAllowed` | backend/users.py:10 | an input made only of `a-z` and whitespace is returned unchanged |
| `Names.KeepAllowedCounts` | backend/users.py:10 | each allowed character keeps its number of occurrences; every other character is gone |
| `Names.KeepAllowedSingle` | backend/users.py:10 | a single character is kept exactly when it is `a-z` or whitespace |
| `Names.KeepAllowedAppend` | backend/users.py:10 | the result for a concatenation is the concatenation of the results, so the kept characters stay in input order |
| `Names.TrimStart` | backend/users.py:10 | the result is a suffix of the input that does not start with whitespace |
| `Names.TrimEnd` | backend/users.py:10 | the result is a prefix of the input that does not end with whitespace |
| `Names.TrimStartDropsSpace` | backend/users.py:10 | only whitespace is dropped from the front |
| `Names.TrimEndDropsSpace` | backend/users.py:10 | only whitespace is dropped from the back |
| `Names.Strip` | backend/users.py:10 | `.strip()`: the result is the contiguous slice of the input that starts after the leading whitespace |
| `Names.StripEdges` | backend/users.py:10 | a stripped string is empty, or neither its first nor its last character is whitespace |
| `Names.StripDropsOnlySpace` | backend/users.py:10 | everything `.strip()` removes, before and after the kept slice, is whitespace |
| `Names.TrimsDropTrailing` | backend/users.py:10 | what the trailing trim drops after the leading trim, located in the original string, is whitespace only |
| `Names.StripKeepsAllowed` | backend/users.py:10 | stripping an all-allowed string leaves it all-allowed |
| `Names.Normalize` | backend/users.py:8-10 | the cleaned name holds only `a-z` and whitespace, and has no whitespace at either end |
| `Names.NonSpaceAppend` | backend/users.py:11 | the non-whitespace characters of a concatenation are those of its two parts, concatenated |
| `Names.NonSpaceOfNoSpace` | backend/users.py:11 | a string without whitespace is its own non-whitespace content |
| `Names.WordLength` | backend/users.py:11 | the leading run has no whitespace and ends at whitespace or at the end of the input |
| `Names.WordLengthUnique` | backend/users.py:11 | the leading run is the only prefix without whitespace that ends at whitespace or at the end of the input |
| `Names.SplitOfWord` | backend/users.py:11 | a non-empty string without whitespace splits into exactly itself |
| `Names.SplitAtSpace` | backend/users.py:11 | tokens are maximal runs: any whitespace character, of any kind and however many in a row, separates the tokens on its left from those on its right and never falls inside a token |
| `Names.Split` | backend/users.py:11 | `.split()`: every token is non-empty and has no whitespace; on an all-allowed input every token is a run of `a-z` |
| `Names.SplitKeepsNonSpace` | backend/users.py:11 | the tokens concatenated are exactly the non-whitespace characters of the input, in order; only whitespace is lost |
| `Names.Tokens` | backend/users.py:8-11 | every token of a display name (`nev_reszek`) is a non-empty run of `a-z` |
| `Names.BaseHandle` | backend/users.py:13-19 | the base is never empty; it holds only `a-z` and `_`; it holds `_` exactly when there are at least two tokens |
| `Names.ReplaceSpaces` | backend/users.py:21 | `.replace(' ', '_')`: same length; every space becomes `_`; every other character is unchanged |
| `Names.ReplaceSpacesIsIdentityOnBase` | backend/users.py:13-21 | the replace step never changes a base built from tokens |
| `Names.JoinShape` | backend/users.py:8-11 | words joined by single spaces hold only `a-z` and spaces, and start and end with a letter |
| `Names.SplitJoin` | backend/users.py:11 | splitting words joined by single spaces gives the words back |
| `Names.NormalizeOfClean` | backend/users.py:8-10 | a lowercase name with single spaces and no padding passes the cleaning steps unchanged |
| `Names.TrimOfUnpadded` | backend/users.py:10 | `.strip()` leaves a string unchanged when neither end is whitespace |
| `Names.TokensOfJoin` | backend/users.py:8-11 | the tokens of words joined by spaces are those words |
| `Names.BaseOf` | backend/users.py:8-21 | the base of a folded name is `BaseHandle` of its tokens, so the replace step changes nothing; it is never empty, holds only `a-z` and `_`, and holds `_` exactly when the name has at least two tokens; `BaseOfJoin` and `BaseOfLetterlessName` state it for concrete shapes of names |
| `Names.BaseOfJoin` | backend/users.py:13-21 | for such a name, the base equals `BaseHandle` of its words |
| `Names.BaseOfJoinedName` | backend/users.py:13-21 | the base is `diak` for no words, the word itself for one word, and `last_first` for two or more |
| `Names.BaseOfLetterlessName` | backend/users.py:13-14 | a name without any ASCII letter has no tokens, and its base is `diak` |
| `Names.BaseOfIgnoresCase` | backend/users.py:8 | two names that lowercase alike get the same base |
| `Names.KovacsAnnaBase` | backend/users.py:8-21 | "Kovács Anna", which unidecode folds to "Kovacs Anna", gets the base `anna_kovacs` |
| `Names.DecimalString` | backend/users.py:31 | `str(n)` is a non-empty string of digits |
| `Names.ParseDecimalString` | backend/users.py:31 | reading the digits of `str(n)` back gives `n` |
| `Names.Handle` | backend/users.py:31 | `f"{alap_resz}{veletlen_szam}"`: the candidate is the base followed by two more characters; `HandleShape` and `HandleInjective` state that they are the draw's digits and that different draws differ |
| `Names.HandleShape` | backend/users.py:29-31 | a candidate is the base followed by exactly two digits that spell the draw |
| `Names.HandleInjective` | backend/users.py:29-31 | different draws give different candidates for the same base |
| `Users.Find` | backend/users.py:70-74 | `filter_by(col=key).first()`, the lookup used here and at backend/app.py:68, 115, 157, 184, 234 and 239: a result is a stored row holding `key` in that column; `None` exactly when no row holds `key` |
| `Users.TableInvariant` | backend/app.py:27-30 | `id` is the primary key and `email` and `username` are `unique=True`: no two rows share any of them; `FindUnique` and `AppendKeepsUnique` state what this gives lookups and appends |
| `Users.FindUnique` | backend/app.py:27-30 | on a unique column, a lookup by a row's value finds that very row |
| `Users.Usernames` | backend/users.py:26 | `{u.username for u in db_felhasznalok}`: `UsernamesFind` states that a name is in it exactly when some row has that username |
| `Users.UsernamesFind` | backend/users.py:26 | a name is in the set of existing usernames exactly when a lookup by username finds a row |
| `Users.FirstFree` | backend/users.py:28-37 | the loop uses between 1 and 10 draws; a result is the candidate of the first free draw, and every earlier candidate was taken; `None` exactly when all 10 candidates are taken |
| `Users.GenerateUsername` | backend/users.py:5-37 | the same as `FirstFree`, for the base derived from the folded display name and the usernames already in the table |
| `Users.AppendKeepsUnique` | backend/app.py:29-30 | appending a row whose key is new keeps a column unique |
| `Users.UserTable.constructor` | backend/app.py:26-31 | an empty table satisfies the table constraints |
| `Users.Commit` | backend/users.py:59-60 | the row is stored exactly when its email is new; otherwise the table is unchanged; the uniqueness constraints hold afterwards |
| `Users.RegisterUser` | backend/users.py:39-62 | `UsernameExhausted` exactly when all 10 candidates are taken; `DuplicateEmail` exactly when generation succeeds but the email exists; on success, exactly one row is appended, holding the given id, name and email, `hash(password)`, and the first free candidate; on failure, nothing changes |
| `Users.Login` | backend/users.py:64-80 | a returned user is stored and `verify` accepts the password against that user's hash; the user matched by username, or by email only when no username matched; `None` means no user that the lookup order reaches has a matching password |
| `Users.LoginByUsername` | backend/users.py:64-78 | a stored user who enters their own username and a password their hash accepts is logged in as exactly that user |
| `Planner.StatusCode` | backend/app.py:64-290 | every outcome has one of the statuses 200, 201, 400, 401, 404, 409 and 500 the routes send; the status is below 300 exactly for the successful outcomes |
| `Planner.UserIdsFind` | backend/app.py:115 | an id belongs to a user exactly when a lookup by id finds a row |
| `Planner.UserIdsAppend` | backend/users.py:59-60 | a new row adds exactly its id to the set of user ids |
| `Planner.UsernameOrUnknown` | backend/app.py:261-268 | `user_lookup.get(id, 'Ismeretlen')`: with unique ids, the username of the row holding that id; `Ismeretlen` when no row holds it |
| `Planner.TasksByGroup` | backend/app.py:48-50 | every listed task is stored and belongs to the group asked for |
| `Planner.PersonalTasks` | backend/app.py:216-220 | every listed task has no group and was created by the user |
| `Planner.GroupsOfUser` | backend/app.py:133-136 | a stored group is listed exactly when the user is among its members |
| `Planner.TaskListingsExact` | backend/app.py:48-50 | a stored task is listed for a group exactly when it belongs to that group; it is a user's personal task exactly when it has no group and that user created it |
| `Planner.GroupAndPersonalDisjoint` | backend/app.py:211-220 | a group's tasks and a user's personal tasks never overlap |
| `Planner.GroupTaskIds` | backend/app.py:145 | `tasks_to_delete`: `CascadeRemovesExactlyGroupTasks` states that it holds exactly the stored tasks of the group |
| `Planner.WithoutGroupTasks` | backend/app.py:146-147 | the task store after the deletion loop; `CascadeRemovesExactlyGroupTasks` and `CascadeKeepsOtherListings` state which tasks remain |
| `Planner.CascadeRemovesExactlyGroupTasks` | backend/app.py:145-147 | the cascade removes exactly the tasks of the deleted group and no other; the remaining tasks are unchanged; the group's listing becomes empty |
| `Planner.CascadeKeepsOtherListings` | backend/app.py:145-147 | after the cascade, every other group's listing and every personal listing is what it was |
| `Planner.InvolvedStep` | backend/app.py:263-264 | visiting one more message adds it to the involved set exactly when the user sent or received it |
| `Planner.View` | backend/app.py:265-278 | the entry built for one message; `ViewNames` states what its flag and its two usernames are |
| `Planner.ViewNames` | backend/app.py:265-277 | an entry is flagged `is_sent_by_me` exactly when the user sent the message; between users, both names are real usernames; with unique ids they are the usernames of the sender's and the recipient's own rows |
| `Planner.CollectedPermuted` | backend/app.py:280 | reordering the collected entries keeps them complete and correct |
| `Planner.SameElements` | backend/app.py:280 | equal multisets: same length, same elements |
| `Planner.InsertByTime` | backend/app.py:280 | inserting adds exactly one entry and keeps all the others |
| `Planner.SortedCons` | backend/app.py:280 | putting an entry before a sorted list of entries that are not newer keeps the list sorted |
| `Planner.InsertByTimeNotNewer` | backend/app.py:280 | inserting an entry that is not newer than `t` into a list whose entries are not newer than `t` keeps that bound |
| `Planner.InsertByTimeSorted` | backend/app.py:280 | inserting into a list sorted newest first keeps it sorted |
| `Planner.SortByTimeDesc` | backend/app.py:280 | the result is sorted newest first and is a permutation of the input |
| `Planner.JoinKeepsGroupInvariant` | backend/app.py:165-169 | appending a new user to a group keeps the group's invariant |
| `Planner.GroupsValidMonotone` | backend/app.py:39-40 | the group invariants still hold when more users exist |
| `Planner.GroupsValidRemove` | backend/app.py:141-143 | removing a group from both stores keeps the rest valid |
| `Planner.GroupsValidInsert` | backend/app.py:128-129 | storing a group that satisfies the invariant keeps the stores valid |
| `Planner.MessagesValidInsert` | backend/app.py:252 | storing a message between users keeps the message store valid |
| `Planner.TasksValidRemove` | backend/app.py:145-147 | removing tasks keeps the task store valid |
| `Planner.CollectStep` | backend/app.py:263-278 | one pass of the collecting loop keeps its invariant: exactly one correct entry per visited message that involves the user |
| `Planner.CollectAppend` | backend/app.py:264-278 | visiting a message that involves the user and appending its entry keeps the invariant |
| `Planner.CollectSkip` | backend/app.py:264 | visiting a message that does not involve the user keeps the invariant without appending |
| `Planner.AppendedEntries` | backend/app.py:270-278 | appending a correct entry keeps every entry correct and among the visited ids |
| `Planner.AppendedCovers` | backend/app.py:270-278 | appending the entry of the visited message keeps every visited message that involves the user covered |
| `Planner.CollectViews` | backend/app.py:263-278 | the loop over the messages returns one entry per message the user sent or received, and nothing else; each entry is that message seen by the user |
| `Planner.UserMessages` | backend/app.py:258-280 | one entry per message the user sent or received; each entry is that message shown from the user's side, with `is_sent_by_me` set exactly when they sent it and, with unique ids, the sender's and the recipient's own usernames; the list is sorted newest first |
| `Planner.App.constructor` | backend/app.py:39-42 | the four stores start empty, and the invariant holds |
| `Planner.App.Register` | backend/app.py:56-82 | missing data → 400; existing email → 409; all 10 candidates taken → 400; otherwise 201 with one new row holding the first free candidate; the table changes only on success |
| `Planner.App.Login` | backend/app.py:84-103 | missing data → 400; 200 with the id, username and full name of a user whose password matches under the lookup order; otherwise 401, and no reachable user's password matches |
| `Planner.App.CreateGroup` | backend/app.py:109-131 | an unknown creator → 400 and nothing changes; otherwise 201 and exactly one group is stored in both stores; the creator is the only member; `description` defaults to "Nincs leírás megadva." only when absent, and JSON null is kept |
| `Planner.App.DeleteGroup` | backend/app.py:138-150 | an unknown group → 404 and nothing changes; otherwise the group leaves both stores and exactly its tasks are deleted |
| `Planner.App.DeleteTasks` | backend/app.py:146-147 | the loop deletes exactly the given task ids |
| `Planner.App.JoinGroup` | backend/app.py:152-171 | an unknown group → 404, then an unknown username → 404, and nothing changes; an existing member → "already a member" with no change; otherwise the user's id is appended to both member lists |
| `Planner.App.AddTask` | backend/app.py:177-202 | an unknown creator → 400 and no change; otherwise exactly one task is stored under the fresh id, with the group id stored unchecked |
| `Planner.App.DeleteTask` | backend/app.py:204-209 | an existing task is removed and nothing else is; a missing one → 404 with no change |
| `Planner.App.SendMessage` | backend/app.py:226-254 | an unknown recipient username → 404, and only then an unknown sender id → 400, with no change; otherwise exactly one unread message from the sender to the recipient's id, stamped `now`, is stored |
| `Planner.App.GetUserMessages` | backend/app.py:256-282 | what `UserMessages` states, over the application's current stores and user table, whose ids are unique |
| `Planner.App.DeleteMessage` | backend/app.py:284-290 | an existing message is removed and nothing else is; a missing one → 404 with no change |

## Left out

- HTTP, JSON and Flask routing are not modelled. Handlers take their request fields as parameters and return an `Outcome`.
- Request fields that are absent, JSON null or empty are modelled as follows:
  - for `register` and `login`, absent covers all three cases, and the model passes the empty string;
  - fields stored as given (a group's `name` and `description`, the task fields, the message content) are modelled as `Option`.
- A `creator_id`, `sender_id` or `username` that is absent from the request is modelled as an id or username that no user has. The outcome of the lookup is the same.
- The SQLite database and SQLAlchemy sessions are modelled as a sequence of rows with `unique` constraints. Transactions, rollback and concurrent requests are not modelled.
- `unidecode` is the parameter `fold`. The model assumes its output is ASCII, so `Lower` maps only `A-Z`.
- bcrypt's `generate_password_hash` and `check_password_hash` are the parameters `hash` and `verify`. Salting is not modelled.
- `uuid.uuid4()` ids are parameters. A freshness precondition stands in for the uniqueness of random UUIDs.
- `datetime.now().isoformat()` is the integer parameter `now`. The model assumes that ISO strings of the same format sort in time order.
- `random.randint(10, 99)` is the sequence `draws` of 10 or more values of type `Suffix`.
- Dictionary insertion order is not modelled:
  - the group and task listings are sets;
  - the message list is specified up to its order among messages with equal timestamps;
  - the stability of the sort is not modelled.
- The generic `except Exception` path of `register` (500) is modelled only for a duplicate email caught at commit. The route's own check makes that case unreachable. Other failures of the database are not modelled.
- `print` logging and `db.create_all()` at start-up are left out.
- The frontend is left out.
