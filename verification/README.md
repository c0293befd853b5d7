# labelord: a verified model of label reconciliation

labelord keeps the issue labels of a set of GitHub repositories in line with a
pattern. The pattern is either an explicit `labels` section of an INI
configuration file or the labels of a template repository. The `run` command
makes one pass per repository:

- In `update` mode, a pass creates every pattern label the repository lacks and
  recolours every one whose colour differs.
- In `replace` mode, a pass also deletes every label the pattern does not name.

Each pass lists the repository's labels once and then issues its calls one by
one. A call that fails with an error status is reported and nothing else
happens. Before a run, the
command group `cli` resolves three things from `--config`, `--token`,
`--template-repo` and `--all-repos`: the token, the repositories and the
pattern. It exits with 3 when there is no token and with 7 when there are no
repositories.

The model has five modules:

- `LabelSets` (`labels.dfy`): Python dicts of labels, as sequences of (name,
  colour) pairs in insertion order. `ToMap` reads one as a dict, and `Without`
  is `del` of several keys.
- `Reconciliation` (`reconcile.dfy`): `Decide` gives the calls one pass issues,
  in order. The lemmas say what is created, updated and deleted, in which
  order, and when a pass does nothing.
- `Store` (`store.dfy`): the remote label store, as a class `Remote`.
  - It holds the labels of every repository plus a log of requests and their
    outcomes.
  - Any call may fail. A call that succeeds was applicable and took effect.
  - The store is always its origin with the log replayed.
  - The convergence lemmas say what a pass leaves behind when every call
    succeeds.
- `Driver` (`driver.dfy`): `get_labels`, `update_labels`, `replace_labels` and
  `run` as imperative methods over a `Remote`. Each method is proved to issue
  exactly the requests `Decide` gives against its listing, in order. Each
  pass of `run` is proved to list the store as the earlier passes left it.
  When the listing is complete and all of a pass's calls succeed, the
  repository converges.
- `Config` (`config.dfy`):
  - `process_config_file`, including its `repos` filter loop and
    `getboolean`.
  - `cli`, both as written and corrected (see Findings).

## Model

| member | source | states |
|---|---|---|
| `Reconciliation.CreatesExactly` | labelord.py:194-204 | a pass creates `(n, c)` exactly when `(n, c)` is in the pattern and `n` is not among the repository's labels, in both modes |
| `Reconciliation.UpdatesExactly` | labelord.py:197-202 | a pass updates `(n, c)` exactly when `(n, c)` is in the pattern and the repository holds `n` with a colour other than `c`; the colours are compared as exact strings |
| `Reconciliation.DeletesExactly` | labelord.py:207-222 | a pass deletes `n` exactly in replace mode, when the repository has `n` and the pattern lacks it |
| `Reconciliation.DeletesLast` | labelord.py:210-222 | in a pass, every delete comes after every create and update |
| `Reconciliation.ReconcileTouchesPattern` | labelord.py:196-204 | the loop over the pattern only touches names of the pattern and never deletes |
| `Reconciliation.ReconcileContents` | labelord.py:196-204 | the loop over the pattern creates and updates exactly the missing and the differently coloured labels of the pattern |
| `Reconciliation.LeftoversContents` | labelord.py:221-222 | the final loop of replace mode deletes exactly the listed names that the pattern does not name |
| `Reconciliation.ReconcileAppend` | labelord.py:196-204 | the decision is made label by label: the calls for a concatenated pattern are the calls for each part, in order |
| `Reconciliation.LeftoversAppend` | labelord.py:221-222 | the deletes follow the listing order of the repository's labels |
| `Reconciliation.OneCallPerName` | labelord.py:194-222 | for a pattern and a listing that are dicts, a pass makes at most one call per label name |
| `Reconciliation.ReconcileEmpty` | labelord.py:196-204 | the loop over the pattern issues nothing exactly when the repository already has every pattern label in its colour |
| `Reconciliation.LeftoversEmpty` | labelord.py:221-222 | replace mode deletes nothing exactly when every listed name is in the pattern |
| `Reconciliation.NothingToDo` | labelord.py:194-222 | update mode issues no call iff the repository already has the pattern's labels; replace mode issues none iff the repository's dict equals the pattern |
| `Reconciliation.Idempotent` | labelord.py:194-222 | a repository that already has exactly the pattern gets no calls in either mode |
| `Reconciliation.EmptyCurrentCreatesAll` | labelord.py:165-178 | when the listing fails and gives an empty dict, a pass creates every pattern label in pattern order and deletes nothing |
| `Reconciliation.EmptyPattern` | labelord.py:207-222 | an empty pattern deletes every listed label in replace mode and does nothing in update mode |
| `Reconciliation.Decide` | labelord.py:194-222 | one pass's calls: the pattern loop's creates and updates against the listing read as a dict, then in replace mode one delete per label left in the local copy, in listing order |
| `Reconciliation.MismatchScenario` | labelord.py:194-222 | a repository with `bug` in another colour plus `feature`, against the pattern `bug`: replace mode gives an update of `bug` then a delete of `feature`; update mode gives only the update |
| `Reconciliation.ColourCaseMatters` | labelord.py:199 | `FF0000` against `ff0000` is a difference and is updated |
| `Store.Remote.List` | labelord.py:165-178 | a successful listing returns the first page (30 labels) of the repository's labels, which is all of them when it has at most 30; a failed one returns none |
| `Store.Remote.Submit` | labelord.py:123-162 | a call logs its request and outcome; when it succeeds the repository exists, the call was applicable, and it took effect; otherwise nothing changes |
| `Store.ApplyOp` | labelord.py:123-162 | what a successful call does to a repository's label list: a create appends the label, an update recolours it in place, a delete removes the name |
| `Store.ApplyOpToMap` | labelord.py:123-162 | a successful create sets the name's colour; an update recolours a present name; a delete removes the name |
| `Store.ApplyKeepsDistinct` | labelord.py:123-162 | the store never holds a label name twice in one repository |
| `Store.ReconcileRun` | labelord.py:196-204 | the creates and updates decided against a listing are all accepted by that listing, and they leave it holding its old dict overridden by the pattern |
| `Store.RemovalsRun` | labelord.py:221-222 | deleting listed names one at a time is accepted and removes exactly those names |
| `Store.UpdateConverges` | labelord.py:194-204 | update mode is accepted call by call; when every call succeeds, the repository holds its old labels overridden by the pattern |
| `Store.ReplaceConverges` | labelord.py:207-222 | replace mode is accepted call by call; when every call succeeds, the repository holds exactly the pattern |
| `Store.ReplayAllAcked` | labelord.py:123-162 | when every request of a pass succeeds, only that repository changes, and it gets every call applied |
| `Store.ReplayAppend` | labelord.py:123-162 | the log semantics that successive calls rely on: the store after a log is the store after its first part with the rest replayed |
| `Driver.GetLabels` | labelord.py:165-178 | `get_labels` returns the first page of the repository's labels as a dict, or an empty dict when the listing fails |
| `Driver.IssueStep` | labelord.py:197-204 | for one pattern label, the loop body issues a create if the name is missing, an update if the colour differs, and nothing otherwise |
| `Driver.UpdateLabels` | labelord.py:194-204 | the requests sent are exactly `Decide` in update mode against the listing, in order; the store is the replay of those requests; when every call succeeded on a complete listing (the whole label list), the repository holds its old labels overridden by the pattern |
| `Driver.ReplaceLabels` | labelord.py:207-222 | as `UpdateLabels`, in replace mode. The local dict copy loses each matched name, so what remains is deleted in listing order. When every call succeeded on a complete listing, the repository holds exactly the pattern |
| `Driver.LocalCopyStep` | labelord.py:210-219 | after the first `i` pattern names are removed, the local copy still agrees with the listing on the next pattern name, and removing that name gives the next copy |
| `Driver.Run` | labelord.py:107-114 | `run` makes one full pass per repository, in order, whatever error statuses the calls return. The log is the concatenation of the passes' requests, and the store is that log replayed. Each pass's listing is empty or the first page of that repository in the store replayed over the log before the pass |
| `Driver.ListedEach` | labelord.py:107-114 | the listing of pass `k` of a run is empty or the first page of `repos[k]` in the store after the requests of the passes before it |
| `Driver.ListedSnoc` | labelord.py:107-114 | a pass that lists after the log so far keeps every earlier pass tied to the store it listed, however the log grows |
| `Config.GetBoolean` | labelord.py:34 | `getboolean` on one value: true for `1`, `yes`, `true`, `on` and false for `0`, `no`, `false`, `off`, in any ASCII case; any other value raises |
| `Config.EnabledRepos` | labelord.py:32-35 | the `repos` filter: the keys with a true flag, in file order, or a failure at the first value that is not a flag word |
| `Config.GetBooleanIgnoresCase` | labelord.py:34 | `getboolean` reads flag words in any case |
| `Config.EnabledReposFails` | labelord.py:33-35 | reading the `repos` section fails exactly when some value is not a flag word |
| `Config.EnabledReposMembers` | labelord.py:33-35 | a repository is selected exactly when some entry names it with a true flag |
| `Config.SelectRepos` | labelord.py:32-35 | the loop appends the repositories with a true flag in file order, and it stops on a value that is not a flag word |
| `Config.ReadConfig` | labelord.py:26-46 | `process_config_file` up to its template fetch: the `github` token, the filtered repositories, and the pattern source (the `others` template, else the `labels` section, else none), or a failure where the code raises |
| `Config.ReadConfigYields` | labelord.py:26-46 | a readable file gives the token of `github`, the selected repositories, and the `others` template when that section exists; otherwise it gives the `labels` section as a dict |
| `Config.ReadConfigFails` | labelord.py:26-46 | apart from interpolation errors, reading a file fails exactly on a duplicate key, a missing `repos` or `github` section, a missing `token` key, a missing `template-repo` key under `others`, or a bad flag |
| `Config.AsWrittenExit3` | labelord.py:57-72 | as written, `cli` exits with 3 exactly when the file reads, neither `--token` nor the file gives a token, and, under `--all-repos`, the listing for the empty token did not crash first |
| `Config.AsWrittenExit7` | labelord.py:64-76 | as written, `cli` exits with 7 exactly when there is a token and the repository list is empty, where under `--all-repos` that list is the one the API gives the empty token |
| `Config.AsWrittenReady` | labelord.py:39-85 | as written, a run context has a token and a repository, with the same token precedence; under `--all-repos` its repositories are those of the empty token, `--template-repo` is fetched with the resolved token, and a template named in the file is fetched with the empty token |
| `Config.CliAsWritten` | labelord.py:55-85 | `cli` as written: the settings load with the file's template fetched under the empty token, `--token` overrides the token, `--all-repos` lists under the empty token (a reply that is not a list crashes), then exit 3 on no token, exit 7 on no repositories, else a run context |
| `Config.Cli` | labelord.py:55-85 | `cli` corrected: the same steps, with the token resolved and checked before any request, and every request made with it |
| `Config.CliExitCodes` | labelord.py:70-76 | the only exit codes are 3 and 7 |
| `Config.NoTokenExits3` | labelord.py:57-72 | the corrected `cli` exits with 3 exactly when the file reads and neither `--token` nor the file gives a token |
| `Config.NoReposExits7` | labelord.py:64-76 | the corrected `cli` exits with 7 exactly when there is a token and the resolved repository list is empty |
| `Config.ReadyContext` | labelord.py:57-85 | in the corrected `cli`, a run context has a token and a repository. A non-empty `--token` overrides the file's token. `--all-repos` replaces the file's repositories. `--template-repo` replaces the pattern |
| `Config.ReadyLabelsDistinct` | labelord.py:39-45 | the pattern handed to `run` is a dict |
| `Config.CliUsesEffectiveToken` | labelord.py:61-85 | the corrected `cli` consults the API only with the token it resolves |
| `Config.AsWrittenListsWithEmptyToken` | labelord.py:67-68 | as written, the `--all-repos` listing depends only on what the API answers to the empty token |
| `Config.AllReposCounterexample` | labelord.py:64-79 | with `--token abc --all-repos`, the code as written crashes, while the corrected `cli` lists the repositories of `abc` |
| `Config.CorrectionKeepsTheRest` | labelord.py:55-85 | without `--all-repos` and without a template in the file, the corrected `cli` behaves exactly as written |

## Left out

- HTTP, JSON, the `requests` session and its headers are not modelled. A call
  to the API is a success or a failure on the abstract store.
- Printed messages are not modelled: the per-call report lines, the stray debug
  line `repo` and `eprint`.
- Every call is taken to return. An exception ends `run` and the
  command in the code: a transport error from the session's `get`, `post`,
  `patch` or `delete` (labelord.py:130, 147, 158, 170), or
  `r.json()['message']` on an error body that is not JSON (labelord.py:151,
  162, 176). The model has no such outcome, so "a failure stops nothing"
  holds only for calls that return an error status.
- A failed label listing is taken as an empty dict, as `get_labels` does. A
  pass against that empty dict then tries to create every pattern label.
- The commands `list-repos` and `list-labels` only print, so they are not
  modelled.
- `get_all_repos` is an oracle from token to repository list. It only reads
  the first page of results, and pagination is not modelled. A reply that is
  not a list, which the loop over it crashes on, is `None`.
- The environment default of `--token` (`GITHUB_TOKEN`) is part of the option's
  value.
- The INI file is modelled after parsing. These are not modelled: the
  `DEFAULT` section's keys showing up in every section, the stripping of
  whitespace, a duplicate section, and `%` interpolation. With interpolation,
  a bare `%` in a value that is looked up, such as `token = ab%cd`, raises an
  error.
- Config.ReadConfigFails: it omits the interpolation error above, so "fails
  exactly" holds only for values without `%`.
- `get_labels` reads one page (30 labels) and never follows the next page.
  The model keeps this: a listing is the first page. In replace mode a label
  past the first page is never deleted, and a create of a pattern label that
  is past the first page fails because the label exists.
- The globals `TOKEN`, `REPOS` and `LABELS` are not modelled. `cli` returns its
  run context instead.
- Driver.Run: the source has one loop per mode, and the model tests the mode
  inside a single loop. The requests are the same.
- Driver.UpdateLabels: convergence is stated only when every call of the pass
  succeeded and the listing was complete, that is, the whole label list of the
  repository (true when it has at most 30 labels). A failed listing, a listing
  cut at the first page, or a failed call only has its replay stated, not a
  final dict.
- Driver.ReplaceLabels: the same restriction applies as for
  `Driver.UpdateLabels`.
- Colour comparison is exact and case-sensitive string equality, because
  that is what the code does. The model does not normalise colours.
- Deletes in replace mode follow the listing order, as the code's dict does.
  They are not sorted by name.
- A failed listing leads to creates against an empty dict, as the code does.
  It does not skip the repository.
- When both `others` and `labels` are present, `others` wins, as in the code.
- A template repository is read with the token in force when the file is
  read (see Findings). A private template read with the empty token gives an
  empty pattern, and replace mode then deletes every label.

## Findings

| source | as written | input that shows it | evidently intended | confidence | as-written member | corrected member |
|---|---|---|---|---|---|---|
| labelord.py:41, 67-68, 79 | `process_config_file`'s template fetch and `get_all_repos` run before the global token is assigned at line 79, so they authenticate with the empty token. With `--all-repos`, the listing is refused (401), and iterating the error object crashes. Without any token, the same crash comes before the exit with 3 | `--token abc --all-repos`, where the API lists `octo/site` for `abc` and refuses the empty token | every request uses the resolved token, and a missing token exits with 3 before any request | high (not executed) | `Config.CliAsWritten` (`Config.AllReposCounterexample`, `Config.AsWrittenListsWithEmptyToken`, `Config.AsWrittenExit3`) | `Config.Cli` (`Config.CliUsesEffectiveToken`, `Config.NoTokenExits3`) |
