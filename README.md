# archinstall user editor, modelled in Dafny

This project models the user-list editor of the archinstall installer
(`UserList` in `archinstall/lib/interactions/manage_users_conf.py`). The
editor keeps an ordered list of users to create. Each user has a username, a
password, a `sudo` flag, a login shell and an optional full name. The editor
offers four actions: add a user, change a password, promote or demote a user,
and delete a user.

- `wrappers.dfy`, module `Wrappers`: `Option` (Python's `X | None`) and `Result` (a value or a raised error).
- `users.dfy`, module `Users`: the `User` and `Password` records and the invariant the editor keeps, `UniqueUsernames`.
- `username_check.dfy`, module `UsernameCheck`: `_check_for_correct_username`.
  - `MatchesPattern` states the pattern `^[a-z_][a-z0-9_-]*\$?$` as Python's `re.match` applies it, with explicit character predicates.
  - Python's `$` also matches just before one final newline, so `"abc\n"` is accepted, and its newline counts towards the 32-character limit. The model keeps this behaviour.
  - The validator runs a left-to-right scanner, `Scan`, which `ScanDecidesPattern` proves accepts exactly the names `MatchesPattern` describes.
- `add_user_flow.dfy`, module `AddUserFlow`: the decisions `_add_user` takes on its prompts' answers.
  - Each answer is `Skip`, `Selection(value)` or `Other`, that is, any other result kind.
  - The password helper's answer is an `Option<Password>`.
  - An unhandled result kind is the `UnhandledResultType` error, which stands for the `ValueError` the source raises.
- `user_editor.dfy`, module `UserEditor`: `handle_action`.
  - The action texts become the enumeration `Action`. `Unrecognised` stands for any other action text.
  - `Apply` gives the returned list as a function of the old list.
  - `HandleAction` works on an `array<User>` the way the source works on its Python list. A password change or a promotion updates the first equal entry in place and returns the same array. Add with a new user and Delete with a selected entry build a new array and leave the old one unchanged. In every other case the same array comes back untouched.
  - The lemmas state what each action keeps, appends or leaves alone. They also show that every action keeps usernames unique.

The selected entry must be in the list whenever the source looks it up with
`next(filter(...))`. That is Promote/Demote, and Change password once a
password has been given. `LookupDefined` states this as a precondition. The
editor only offers the entries of its own list for selection, and `next`
would raise on an empty filter.

Two behaviours of the source are easy to miss, and the model keeps both:
- A full-name prompt that returns an empty selection stores the empty string (`Some("")`), not an unset name (`manage_users_conf.py:114-116`).
- A username that ends in one newline passes the validator, because Python's `$` matches before a final newline (`manage_users_conf.py:61`).

## Model

| member | source | states |
|---|---|---|
| UsernameCheck.CheckUsername | archinstall/lib/interactions/manage_users_conf.py:59-63 | no message exactly when the name is present, matches the pattern (lead char in `[a-z_]`, then `[a-z0-9_-]*`, an optional `$`, an optional single final newline) and has at most 32 characters; otherwise the invalid-username message |
| UsernameCheck.ScanDecidesPattern | archinstall/lib/interactions/manage_users_conf.py:61 | the left-to-right scanner accepts a name if and only if it matches the pattern as `re.match` with `$` matches it |
| UsernameCheck.TrailingNewlineAccepted | archinstall/lib/interactions/manage_users_conf.py:61 | `"abc\n"` and `"abc$\n"` are accepted; `"abc\n\n"` is rejected |
| UsernameCheck.RejectedNames | archinstall/lib/interactions/manage_users_conf.py:59-63 | None, the empty name, a leading digit, upper case and an inner `$` are rejected |
| AddUserFlow.AddUser | archinstall/lib/interactions/manage_users_conf.py:72-136 | an `Other` username answer, or a non-`Selection` sudo answer once reached, is an error; a skipped or empty username or no password yields no user; otherwise the user has the given name, password and sudo flag, a full name exactly when that prompt returned a selection, and `/bin/bash` unless the shell prompt returned a selection |
| AddUserFlow.CreatedUserIsValid | archinstall/lib/interactions/manage_users_conf.py:66-101 | when the username prompt only returns names its validator accepts, a flow answered with a name, a password and a sudo choice creates a user whose username matches the pattern and has 1 to 32 characters |
| UserEditor.FirstIndex | archinstall/lib/interactions/manage_users_conf.py:49 | the index found holds an entry equal to the selected one, and no earlier entry is equal to it |
| UserEditor.FindFirst | archinstall/lib/interactions/manage_users_conf.py:52 | the search over the list stops at the first entry equal to the selected one |
| UserEditor.WithoutUsername | archinstall/lib/interactions/manage_users_conf.py:41 | an entry is kept exactly when it was in the list with a different username; the length drops by the number of entries with that username, and none is left |
| UserEditor.Added | archinstall/lib/interactions/manage_users_conf.py:36-42 | the new user is the last element; an entry is in the result exactly when it is the new user or an old entry with another username; exactly one entry has the new username |
| UserEditor.WithoutUsernameAppend | archinstall/lib/interactions/manage_users_conf.py:41 | the filter works piecewise over a concatenation, so the kept entries stay in their original order |
| UserEditor.AddKeepsUnique | archinstall/lib/interactions/manage_users_conf.py:39-42 | if usernames were unique before an add, they are unique after |
| UserEditor.AddLength | archinstall/lib/interactions/manage_users_conf.py:39-42 | with unique usernames, adding a taken username replaces that entry and keeps the length; adding a new username grows the list by one |
| UserEditor.WithPassword | archinstall/lib/interactions/manage_users_conf.py:48-50 | the list keeps its length; at the first index holding an entry equal to the selected one, that entry now has the new password and its other fields; every other position, later equal copies included, is unchanged |
| UserEditor.WithPasswordEffect | archinstall/lib/interactions/manage_users_conf.py:48-50 | changing a password keeps every username in its place; the selected entry with the new password is in the list, and with unique usernames it is the only entry with that username |
| UserEditor.Toggled | archinstall/lib/interactions/manage_users_conf.py:51-53 | the list keeps its length; at the first index holding an entry equal to the selected one, that entry has `sudo` flipped and its other fields; every other position, later equal copies included, is unchanged |
| UserEditor.ToggledEffect | archinstall/lib/interactions/manage_users_conf.py:51-53 | promoting/demoting keeps every username in its place; the flipped entry is in the list, and with unique usernames it is the only entry with that username |
| UserEditor.ToggleTwice | archinstall/lib/interactions/manage_users_conf.py:51-53 | with unique usernames, promoting/demoting the same entry twice restores the original list |
| UserEditor.Without | archinstall/lib/interactions/manage_users_conf.py:55 | an entry is kept exactly when it was in the list and differs from the selected one; the length drops by the number of copies of the selected one |
| UserEditor.DeleteKeepsOthers | archinstall/lib/interactions/manage_users_conf.py:54-55 | no copy of the selected entry remains, and every other entry occurs as often as before |
| UserEditor.WithoutAppend | archinstall/lib/interactions/manage_users_conf.py:55 | deletion works piecewise over a concatenation, so the remaining entries keep their order |
| UserEditor.WithoutAbsent | archinstall/lib/interactions/manage_users_conf.py:55 | deleting an entry that is not in the list leaves it unchanged |
| UserEditor.DeleteIdempotent | archinstall/lib/interactions/manage_users_conf.py:54-55 | deleting the same entry twice equals deleting it once |
| UserEditor.WithoutKeepsUnique | archinstall/lib/interactions/manage_users_conf.py:54-55 | deletion keeps usernames unique |
| UserEditor.Apply | archinstall/lib/interactions/manage_users_conf.py:35-57 | the list `handle_action` returns: Add yields at most one more entry, each an old entry or the added user; Delete yields no more entries, each an old one; every other action keeps each username in its place |
| UserEditor.ApplyKeepsUnique | archinstall/lib/interactions/manage_users_conf.py:35-57 | every action keeps usernames unique |
| UserEditor.ApplyUnchanged | archinstall/lib/interactions/manage_users_conf.py:36-57 | an unrecognised action, Add without a new user, Change password without a password, and any entry action without a selected entry return the list unchanged |
| UserEditor.ReplaceScenario | archinstall/lib/interactions/manage_users_conf.py:36-42 | adding "alice" as superuser with the default shell to an empty list, then "alice" again without sudo, leaves one "alice" entry that is not a superuser |
| UserEditor.HandleAction | archinstall/lib/interactions/manage_users_conf.py:35-57 | fails exactly when Add's flow raises, and then leaves the list alone; otherwise returns `Apply` of the old list; Add with a user and Delete with an entry return a fresh list and leave the old one unchanged; in every other case (including Add without a user and Delete without an entry) the same list comes back, updated in place by Change password and Promote/Demote and otherwise untouched |

## Left out

- `archinstall/default_profiles/desktops/plasma.py` is not part of this model. It holds a constant package list and a constant greeter type, with no behaviour.
- The prompt widgets (`Input`, `Confirmation`, `Selection`), `get_password` and the shell menu's sorting and default are not part of this model. Their answers are parameters: `AddUserFlow.Answers` for `_add_user`, and `newPassword` for Change password.
- The username prompt's re-prompting loop on an invalid name lives in the `Input` widget. The model has the validator and assumes, in `CreatedUserIsValid`, that the widget returns only names the validator accepts.
- The shell prompt offers `/bin/bash`, `/bin/zsh` and `/bin/fish`. The model takes any selected value as given and does not restrict it to these three.
- Translation (`tr`) and the accumulating header and prompt texts are display only. The action texts are the enumeration `Action`, and the invalid-username message is its untranslated text.
- Password truthiness: any `Password` the helper returns counts as given. The helper answers None for a skipped or empty entry. The `Password` class, including `hidden()`, is not part of this model, and its secret is opaque.
- Entry truthiness: any selected `User` counts as present, and only None is absent.
- `ListManager.run`, the interactive loop that calls `handle_action`, and `selected_action_display` are not part of this model. Neither is `ask_for_additional_users` with its mutable default argument.
- HandleAction: object identity between `entry` and the list element is not modelled. In the source, updating the user in place also changes the caller's `entry` object, and a new list made by Add or Delete shares its `User` objects with the old one. The model stores users as values in the array.
