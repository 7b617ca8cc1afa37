# WhoYou directory model

WhoYou is a small accounts database for web applications. It stores user
accounts and teams, each with a store-assigned id and a unique name, and
membership rows `(account, team, admin)` with at most one row per pair.
Other applications read it over HTTP or through a small Python interface.
This project models its core in Dafny and proves the properties the code
promises:

- the directory in `database.py`: the `Database` connection with its
  per-connection caches, and the `Account` and `Team` objects with
  `save`, the single-row membership operations and the two
  reconciliation routines `set_teams` and `set_admins`;
- the access rules and the shared handler logic of `method_mixin.py`;
- the form checks and store updates of the create and edit handlers in
  `account.py` and `team.py`;
- the property merge of `interface.py`.

The SQLite store becomes three maps in the `Directory.Database` class:
`accounts` and `teams` map a name to its row, and `links` maps an
`(account id, team id)` pair to its admin flag. The pair is the key, so the
table's UNIQUE constraint holds by construction. Id 0 stands for Python's
`None`. A Python exception is the `Err`/`Fail` side of a `Result` or
`Outcome`, with its cause given by `Store.Error`.

A handler's HTTP failure is a `Validation.HttpError`. An exception a
handler does not catch is `Internal`. Password hashing is the
uninterpreted function `Database.digest`, and no injectivity is assumed.

Modules, one file each:

| file | module | models |
|---|---|---|
| wrappers.dfy | Wrappers | Option, Result, Outcome |
| text.dfy | Text | `strip`, `split`, the allowed name characters, SQLite's name order |
| store.dfy | Store | rows, tables, the store invariant, membership queries |
| membership.dfy | Membership | `set_teams` and `set_admins` as functions on the rows, with their properties |
| database.dfy | Directory | `Database`, `Account`, `Team` |
| validation.dfy | Validation | name and password rules, HTTP failures |
| access.dfy | MethodMixin | `is_login_admin`, `check_access`, `prepare`, `get_data_links` |
| account_resource.dfy | AccountResource | account handlers |
| team_resource.dfy | TeamResource | team handlers |
| interface.dfy | Interface | `update_account_properties` |

A Python `assert` that only an internal caller could break is a
`requires`. An example is `remove_member`'s assertion that both ids are set:
`set_teams` only calls it on teams the account is in.
Client input can reach five assertions:

- `save`'s two assertions, on an empty name or a name that is not one word;
- `add_member`'s `assert self.id`, when `set_teams` gets an empty team name,
  for which `get_team` returns a blank team without id;
- `set_admin`'s assertions, when `set_admins` gets an empty name (a blank
  account without id) or the name of an account that is not a member;
- `is_member`'s `assert account.id`, when `is_login_admin` runs for the
  empty login, for which `get_account` returns a blank account;
- the `isinstance` assertion of `is_member` and `is_admin`, which the access
  rules of the team view and edit handlers reach by passing the login
  dictionary (see "## Findings").

All five are modelled as `AssertionFailed` errors. `save` commits.
`set_teams` and `set_admins` commit only at their end. A failure inside them
may come after some of their deletions or insertions, but those are never
committed, so the memberships stay as they were after the handler's `save`.

Three predicates of `Directory` describe the per-connection caches.
`Extends(before, after)` says that a cache only grows: every earlier entry
stays, bound to the same object. `FetchedAccounts(before)` and
`FetchedTeams(before)` say that every object cached since the cache was
`before` holds the stored row of its name, as `fetch` left it.
`Database.Synced` says that every cached object holds its stored row. The
lookups that fill a cache state all three kinds of fact, so a caller knows
what the returned objects contain.

## Model

| member | source | states |
|---|---|---|
| Text.Strip | account.py:269 | `strip()`: the result is the piece of the input between its leading and trailing whitespace, and it neither starts nor ends with whitespace |
| Text.Split | database.py:205 | `split()`: every word is non-empty and free of whitespace |
| Text.SplitSingle | database.py:205 | a non-empty string without whitespace splits into itself alone |
| Text.SplitNone | database.py:205 | a string splits into no words iff it is all whitespace |
| Text.OneWordSplit | database.py:205 | `len(s.split()) == 1` iff `s` is one run of non-whitespace characters with only whitespace before and after it |
| Text.AllowedIsOneWord | account.py:272-274 | a non-empty name of allowed characters splits into itself alone and is one word, so `save`'s assertion holds for every name the handlers accept |
| Text.SortNames | database.py:67 | `ORDER BY name`: the result holds exactly the given names, each once, strictly ascending in byte order |
| Text.Least | database.py:67 | the least name of a non-empty set in byte order |
| Store.AdminsAreMembers | database.py:433-444 | an admin of a team is a member of it, because the flag lives on the membership row |
| Store.NoDigestAcceptsAll | database.py:276-282 | an account without a stored digest accepts every password |
| Store.InsertAccountRow | database.py:219-229 | inserting a row under a new name and the next id keeps names and ids unique; no membership row has that id yet |
| Store.InsertTeamRow | database.py:330-337 | the same for a team row |
| Store.ReplaceAccountRow | database.py:209-218 | overwriting a row under its own id keeps the store well formed |
| Store.ReplaceTeamRow | database.py:322-329 | the same for a team row |
| Membership.SetTeamsResult | database.py:253-274 | after `set_teams(names)` the account is in exactly the named teams that exist; a retained membership keeps its admin flag and a new one is non-admin; other accounts' rows are untouched |
| Membership.SetTeamsFresh | account.py:293-294 | for an account without memberships, `set_teams` makes it a non-admin member of exactly the named teams that exist |
| Membership.SetTeamsIdempotent | database.py:253-274 | a second `set_teams` with the same names changes nothing |
| Membership.SetTeamsSecondCallInert | database.py:258-273 | on the second call both loops find nothing to do: no current team is unwanted, and every wanted team the account is not in does not exist |
| Membership.SetAdminsFrame | database.py:398-419 | `set_admins` neither creates nor deletes a membership row, and leaves other teams' rows alone |
| Membership.SetAdminsFlags | database.py:398-419 | after `set_admins(names)` each member's admin flag says whether it was named |
| Membership.SetAdminsResult | database.py:398-419 | when the promotions are legal, the team's admins are exactly the named accounts that exist |
| Membership.SetAdminsIdempotent | database.py:398-419 | a second `set_admins` with the same names changes nothing |
| Membership.SetAdminsNone | team.py:175 | an empty admin list demotes every admin and keeps every membership |
| Directory.Database.Open | interface.py:9-12 | a new connection sees the given tables with empty caches |
| Directory.Database.GetAccount | database.py:73-87 | `get_account`: a stored name yields its cached object, fetched and cached once; an unknown name gives KeyError and nothing is cached; a non-empty password gives ValueError iff `check_password` rejects it; the empty name gives a blank object; earlier cache entries are kept (`Extends`) |
| Directory.Database.GetTeam | database.py:119-129 | `get_team`: the same, without the password; earlier cache entries are kept |
| Directory.Database.AccountsNamed | database.py:68-71 | the loop of `get_accounts`: the cached objects of the given names, in order, with earlier cache entries kept; each newly cached object holds its stored row, and a synced cache stays synced |
| Directory.Database.TeamsNamed | database.py:114-117 | the loop of `get_teams`, likewise, including the stored rows of newly cached objects and a synced cache staying synced |
| Directory.Database.GetAccounts | database.py:64-71 | every stored account once, ascending by name, each the cached object of its name; earlier cache entries are kept, so an object from an earlier `get_account` is the one returned; each newly cached object holds its stored row, and a synced cache stays synced |
| Directory.Database.GetTeams | database.py:110-117 | every stored team once, ascending by name, each the cached object of its name; earlier cache entries are kept, so an object from an earlier `get_team` is the one returned; each newly cached object holds its stored row, and a synced cache stays synced |
| Directory.Database.CreateAccount | database.py:49-62 | ValueError when the name resolves; AssertionError from `save` for a name that is not one word; otherwise exactly one new row with the digest of a non-empty password, a fresh id and no memberships |
| Directory.Database.CreateTeam | database.py:97-108 | the same for teams, with no members |
| Directory.Database.NewAccount | database.py:56-62 | on a free non-empty name: AssertionError from `save` for a name that is not one word; otherwise exactly one new row with the digest of a non-empty password, a fresh id and no memberships |
| Directory.Database.NewTeam | database.py:104-108 | on a free non-empty name: AssertionError from `save` for a name that is not one word; otherwise exactly one new row with the description, a fresh id and no members (`POST_TeamCreate` runs the same steps at team.py:230-233) |
| Directory.Account.Blank | database.py:167-177 | `Account(db)`: an unsaved object with no id and empty properties |
| Directory.Account.Fetch | database.py:185-198 | `fetch`: the object holds the stored row |
| Directory.Account.CheckPassword | database.py:276-282 | ValueError iff a non-empty digest is stored and the password's digest differs |
| Directory.Account.Save | database.py:200-230 | AssertionError for a name that is not one word; ValueError, with nothing written, when the name's row has another id; otherwise that row's other columns are overwritten, or a row is inserted and the object takes its fresh id |
| Directory.Account.Overwrite | database.py:209-218 | the UPDATE: the row of the object's name, which has the object's id, takes the object's columns and nothing else changes |
| Directory.Account.Insert | database.py:219-229 | the INSERT: a row under an id no stored account has, which the object takes; no membership row has that id |
| Directory.Account.GetTeams | database.py:240-251 | exactly the account's teams, ascending by name, as cached objects; earlier team-cache entries are kept, each newly cached team holds its stored row, and a synced cache stays synced |
| Directory.Account.SetTeams | database.py:253-274 | the rows afterwards are `SetTeamsLinks` of the rows before; earlier team-cache entries are kept, each newly cached team holds its stored row, and a synced cache stays synced |
| Directory.Account.TeamNameSet | database.py:258 | the first line of `set_teams`: the names of `get_teams()` are exactly the account's teams; earlier team-cache entries are kept, each newly cached team holds its stored row, and a synced cache stays synced |
| Directory.Account.LeaveTeams | database.py:260-266 | the first loop deletes exactly the rows of the named teams that exist. Objects cached since the ghost map `since` still hold their stored rows afterwards. |
| Directory.Account.JoinTeams | database.py:267-273 | the second loop adds a non-admin row for each named team that exists, keeping existing rows. Objects cached since the ghost map `since` still hold their stored rows afterwards. |
| Directory.Account.LeaveByName | database.py:261-266 | one turn of the first loop: the row of the named team, when it exists, is deleted; an unknown name changes nothing. Objects cached since the ghost map `since` still hold their stored rows afterwards. |
| Directory.Account.JoinByName | database.py:268-273 | one turn of the second loop: the named team, when it exists, gains a non-admin row unless the pair has one. Objects cached since the ghost map `since` still hold their stored rows afterwards. |
| Directory.Team.Blank | database.py:288-296 | `Team(db)`: an unsaved object |
| Directory.Team.Fetch | database.py:304-315 | `fetch`: the object holds the stored row |
| Directory.Team.Save | database.py:317-338 | as `Account.save`, for teams; a new team has no members |
| Directory.Team.Overwrite | database.py:322-329 | the UPDATE of a team row under its own id |
| Directory.Team.Insert | database.py:330-337 | the INSERT of a team row under a fresh id; the new team has no members |
| Directory.Team.GetMembers | database.py:348-355 | exactly the team's members, each once (the UNIQUE pair makes the query return one row per member), as cached objects; earlier account-cache entries are kept, each newly cached account holds its stored row, and a synced cache stays synced |
| Directory.Team.GetAdmins | database.py:357-365 | exactly the team's admins, each once, as cached objects; earlier account-cache entries are kept, each newly cached account holds its stored row, and a synced cache stays synced |
| Directory.Team.IsMember | database.py:421-431 | true iff the pair has a membership row |
| Directory.Team.IsAdmin | database.py:433-444 | true iff the pair's row has the admin flag; it implies membership |
| Directory.Team.AddMember | database.py:367-376 | nothing changes for a member; otherwise exactly one row with the given flag is added |
| Directory.Team.RemoveMember | database.py:378-385 | the pair's row is deleted if there is one, and no other row changes; the pair is then not a member |
| Directory.Team.SetAdmin | database.py:387-396 | on a member, only that pair's flag changes; no row is added or deleted |
| Directory.Team.SetAdmins | database.py:398-419 | the rows afterwards are `SetAdminsLinks` of the rows before; earlier account-cache entries are kept, each newly cached account holds its stored row, and a synced cache stays synced |
| Directory.Team.AdminNameSet | database.py:403 | the first line of `set_admins`: the names of `get_admins()` are exactly the team's admins; earlier account-cache entries are kept, each newly cached account holds its stored row, and a synced cache stays synced |
| Directory.Team.ApplyAdminFlags | database.py:404-418 | the two loops of `set_admins`, given the current admins and the wanted names: the rows afterwards are `SetAdminsLinks` of the rows before, and the team cache stays synced if it was. Objects cached since the ghost map `since` still hold their stored rows afterwards. |
| Directory.Team.SetAdminFlags | database.py:405-418 | either loop of `set_admins`: the flag of each named existing account is set, nothing else changes. Objects cached since the ghost map `since` still hold their stored rows afterwards. |
| Directory.Team.FlagByName | database.py:406-417 | one turn of either loop: the named account's flag, when it exists, is set; an unknown name changes nothing. Objects cached since the ghost map `since` still hold their stored rows afterwards. |
| Validation.NameRejection | account.py:270-274 | a stripped name is accepted iff it is longer than three characters and uses only letters, digits, `-`, `_` and `.`; too short is checked first; an accepted name is one word |
| Validation.PasswordRejection | account.py:285-289 | a password is accepted iff it has at least `MIN_PASSWORD_LENGTH` characters and equals its confirmation; length is checked first |
| MethodMixin.SiteAdmin | method_mixin.py:55-62 | the login `admin` is a site admin without a lookup; any other login is one iff its account is a member of team `admin`, with any flag; a missing `admin` team or login account raises KeyError, so the `return False` branch is unreachable |
| MethodMixin.IsLoginAdmin | method_mixin.py:55-62 | the method's answer is `SiteAdmin` of the store it reads; both caches keep their earlier entries, and each newly cached object holds its stored row |
| MethodMixin.CheckAccess | method_mixin.py:46-49 | FORBIDDEN naming the login iff the rule says no; an exception while deciding propagates |
| MethodMixin.DefaultAccessible | method_mixin.py:51-53 | the default rule lets every login pass `check_access` |
| MethodMixin.GetAccountAnonymous | method_mixin.py:35-37 | an anonymous login always gets KeyError |
| MethodMixin.Prepare | method_mixin.py:18-24 | only the composition of `Database.Open` and `CheckAccess`: the rule is applied to the committed tables, with empty caches, after the connection opens. Dispatch to the handler's own rule is left out (see "## Left out"), so nothing further is proved here |
| MethodMixin.DataLinks | method_mixin.py:64-82 | 'My account' and 'Documentation: API' always; 'Accounts' and 'Teams' iff site admin; order Accounts, My account, Teams, Documentation |
| MethodMixin.GetDataLinks | method_mixin.py:64-82 | the appended list is `DataLinks` of `is_login_admin`'s answer, or its exception; both caches keep their earlier entries, and each newly cached object holds its stored row |
| AccountResource.AccountAccess | account.py:96-97 | view and edit of an account are allowed iff the login is a site admin or that account; `is_login_admin`'s exceptions come first |
| AccountResource.NonAdminAccess | tests.py:50-72 | a non-admin login is forbidden the account list and the `admin` account, and may read its own account |
| AccountResource.CreateRejection | account.py:269-289 | the create form is accepted iff the name rules hold, the name is free and the password rules hold; the checks come in that order |
| AccountResource.HandleCreate | account.py:266-295 | a rejected form answers BAD_REQUEST and stores nothing; an accepted one stores the account with its password digest under a fresh id, then puts it in exactly the named teams that exist, none as admin |
| AccountResource.Register | account.py:282-294 | the account is saved with its digest, then `set_teams` runs on it; an empty team name fails after the save and adds no membership |
| AccountResource.Enrol | account.py:282-293 | the new account is saved with the form's digest, email and description under a fresh id, with no memberships |
| AccountResource.EditRejection | account.py:197-208 | FORBIDDEN iff a non-admin's non-empty current password does not hash to the stored digest; otherwise BAD_REQUEST iff a non-empty new password breaks the password rules |
| AccountResource.EditedPassword | account.py:203-209 | a blank new password keeps the stored digest; a non-blank one stores its digest |
| AccountResource.HandleEdit | account.py:190-214 | an unknown account or an `is_login_admin` exception changes nothing; a rejected form changes nothing; an accepted one stores the digest, email and description, and changes memberships only for a site admin |
| AccountResource.EditAccount | account.py:192-214 | on the found object: `is_login_admin`'s exception, a wrong current password or a rejected new password changes nothing; the blank object of the empty name fails `save`; otherwise as `ApplyEdit` |
| AccountResource.ApplyEdit | account.py:209-214 | after the checks the row gets the new digest, email and description under its id, then a site admin's team list is reconciled |
| AccountResource.SaveEdit | account.py:209-212 | `save` of the edited object: AssertionError for a name that is not one word; otherwise only the account's digest, email and description change |
| AccountResource.EditBlank | account.py:209-212 | on the blank object of the empty name, `save` fails its assertion and the stored accounts stay as they were |
| AccountResource.ReconcileTeams | account.py:213-214 | `set_teams` runs iff the login is a site admin; a non-admin's edit leaves every membership as it was |
| AccountResource.SiteAdminIgnoresRowData | account.py:212-213 | saving the edited row does not change whether the login is a site admin |
| TeamResource.TeamAccessAsWritten | team.py:100-101 | as written, a login that is not a site admin fails `is_member`'s type assertion; only site admins pass |
| TeamResource.TeamViewAccess | team.py:100-101 | as intended, team view is allowed iff the login is a site admin or a member of the team |
| TeamResource.TeamEditAccess | team.py:167-168 | as intended, team edit is allowed iff the login is a site admin or an admin of the team |
| TeamResource.EditAccessGrantsView | team.py:138-139 | whoever may edit a team may view it, and members and team admins pass without being site admins |
| TeamResource.AsWrittenAgreesOnAdmins | team.py:167-168 | the as-written rule agrees with the intended one except for logins that are not site admins, who get an internal error |
| TeamResource.TeamAdminLockedOut | team.py:100-101 | an admin of team `devs` who is not a site admin is refused view and edit as written, and admitted as intended |
| TeamResource.CreateRejection | team.py:217-229 | the create form is accepted iff the name rules hold and the name is free |
| TeamResource.HandleCreate | team.py:214-234 | a rejected form stores nothing; an accepted one stores the team with its description under a fresh id, with no members |
| TeamResource.HandleEdit | team.py:170-176 | an unknown team changes nothing; otherwise the description is saved and the admins become exactly the listed accounts that exist; memberships are kept, and an illegal promotion changes no membership |
| TeamResource.ApplyEdit | team.py:172-175 | the row gets the description under its id, then `set_admins` reconciles the admins |
| TeamResource.ReconcileAdmins | team.py:175 | `set_admins` with the listed names: an empty name or a listed account that is neither admin nor member gives AssertionError and keeps the memberships; otherwise the links become `SetAdminsLinks`, the admins are exactly the listed accounts that exist, the members stay the same, and earlier account-cache entries are kept |
| Interface.MergeProperties | interface.py:47 | every given key takes its value under the application; its other keys and other applications are kept; a missing entry starts empty; an entry that is not a mapping raises AttributeError |
| Interface.MergeIdempotent | interface.py:47 | repeating the same update changes nothing |
| Interface.MergeTwice | interface.py:47 | two updates of one application equal one update with their keys combined, the later value winning |
| Interface.UpdateAccountProperties | interface.py:44-48 | an unknown name gives KeyError; otherwise only the account's properties change, by `MergeProperties`, and the save under the existing id passes |
| Interface.MergeAndSave | interface.py:46-48 | the merged properties are saved under the account's own id; the blank account of the empty name fails `save`'s assertion |

## Findings

| source | as written | input that shows it | evidently intended | confidence | as-written member | corrected member |
|---|---|---|---|---|---|---|
| team.py:101 | `is_access` of the team view passes the login to `is_member`. The login is the name dictionary the login mixin stores, not an `Account`, so the `isinstance` assertion fails | login `alice`, a member of team `devs` but not of team `admin`, asks to view `devs`: internal error instead of access | view for site admins and team members | not executed | TeamResource.TeamAccessAsWritten, TeamResource.TeamAdminLockedOut | TeamResource.TeamViewAccess, TeamResource.EditAccessGrantsView |
| team.py:168 | `is_access` of the team edit handlers (also team.py:139) passes the login to `is_admin`, which makes the same assertion | login `alice`, an admin member of `devs` but not a site admin, asks to edit `devs`: internal error instead of access | edit for site admins and team admins | not executed | TeamResource.TeamAccessAsWritten, TeamResource.AsWrittenAgreesOnAdmins | TeamResource.TeamEditAccess, TeamResource.EditAccessGrantsView |

## Left out

- Dispatch: the handlers define `is_access` and `set_current(resource, request, application)`, while `MethodMixin.prepare` calls `is_accessible` and `set_current(request)`. The access rules are therefore standalone functions, and `Prepare` takes the rule to apply as a parameter.
- `set_login` and the login object belong to the wrapid library, which is not part of this model. A login is modelled by its name. `account.py:97` reads it as `self.login.name` and `method_mixin.py` reads it as `self.login['name']`; both are modelled as the name.
- `set_current` is modelled by the handler's own lookup. An unknown name gives KeyError there, before `HTTP_NOT_FOUND` could be raised, so NOT_FOUND is not modelled.
- AccountResource.AccountAccess, AccountResource.HandleEdit, AccountResource.EditAccount: the account handlers' `set_current` (account.py:92, 142, 183) calls `MethodMixin.get_account`, which returns the `get_data()` dictionary (method_mixin.py:26-33, database.py:232-238), not an `Account`. As written, `self.account.name` in `is_access` (account.py:97, 188) and `self.account.email = ...` in the edit handler (account.py:210) raise AttributeError before anything is saved. The model gives these handlers the `Account` object from `Database.get_account`, which is the object their bodies expect.
- TeamResource.HandleEdit: the team handlers' `set_current` (team.py:96, 134, 164) calls `self.get_team`, which `MethodMixin` does not define. The model gives them the `Team` object from `Database.get_team`.
- SQL text, cursors, the connection and `close`. Commit is modelled by which changes survive a failed handler.
- JSON (de)serialisation of `properties`, `rstr` and floating-point JSON values.
- `lastrowid` is modelled as a counter that gives the next id.
- MethodMixin.IsLoginAdmin, MethodMixin.GetDataLinks: they state that both caches only grow and that each newly cached object holds its stored row, but not that a synced connection stays synced. That also holds, because neither method writes to a cached object, but it is not proved as a postcondition.
- The cache entry that a blank object gets under the key `None` is not kept, since no string lookup can reach it.
- Team.GetMembers, Team.GetAdmins: the queries of `get_members` and `get_admins` (database.py:348-365) have no ORDER BY, so SQLite may return the rows in any order. The model's bodies happen to return the accounts in name order, but the contracts leave the order unstated. They state only which accounts are returned and that each appears once.
- `string.letters` is taken as the ASCII letters of the C locale.
- Text.IsSpace: strings are byte strings (Python 2 `str`), and whitespace is the six ASCII whitespace characters. Form values that arrived as `unicode` would have `strip()` and `split()` also treat characters such as U+00A0 and U+2028 as whitespace. The model keeps them, so for such input `Text.Strip`, `Text.Split` and the name checks built on them differ from the source. For example, the name `" alice\u00a0"` is stripped to `alice` and accepted there, but rejected with BAD_REQUEST here.
- Stored names are not assumed to be one word. `Save` checks this on every call, so tables handed to the model may hold any non-empty names.
- `get_data`, `get_account_data`, `get_team_data` and the read-only functions of `interface.py` only convert rows to dictionaries and are not part of this model.
- `Database.save(item)` (database.py:137-139) calls `item.save(self)`, but `Account.save` and `Team.save` take no argument (database.py:200, 317), so as written it raises TypeError. Nothing in the core calls it, and it is not part of this model.
- The GET handlers, form parsing, redirects, HTML and text representations, documentation and the configuration module are not part of this model.
- Password hashing is an uninterpreted function.
- The bootstrap script at the end of `database.py` does I/O and interactive password entry, and is not part of this model.
