# GitBucket service-hook injector, modelled in Dafny

The injector reads a GitBucket activity feed and picks out the repositories
reported as created. If there are any, it signs in once. Then, for each such
repository in feed order, it reads the URLs of the service hooks already
configured. It adds every configured service hook whose URL is not among
them, in configuration order. The first exception ends the run with exit
status 1.

This project models the three pieces of decision logic in that run, with
the network, the feed parser and the HTML scraper stripped away:

- `activity.dfy`, module `ActivityPattern`: the activity regular expression
  `<a href=.*</a> (?P<activity>[a-zA-Z]+) <a href=.*</a>` as Python's
  `re.match` applies it. The match is anchored at the start only, `.`
  excludes the newline, and the greedy first `.*` picks the split that lies
  furthest right. `Split` and `Captures` state the pattern as predicates
  over splits of the content. `MatchActivity` computes the captured word,
  and `MatchActivityCorrect` proves the two agree.
- `feed.dfy`, module `FeedReader`: `_get_created_repositories`. It is a loop
  (`GetCreatedRepositories`) over feed entries `(content, link)`, proved
  equal to the reference filter `CreatedLinks`. Lemmas cover order,
  duplicates, skipped entries and the bound on the output length.
- `hook_form.dfy`, module `HookForm`: the form data of `_inject_service_hook`.
  It is a loop over the event flags (`BuildForm`), proved equal to
  `FormData`, whose fields `FormDataCorrect` states and `HookFormUnique`
  shows to be fully determined.
- `injector.dfy`, module `Injector`: the nested loops of `main`
  (`RunInjector`), proved equal to the reference run `Inject`. The
  platform's answers are parameters (`Platform`): the sign-in outcome, the
  hook URLs listed for each repository (or the error reading them), and the
  outcome of each new-hook POST. A run records whether sign-in was
  attempted, the injections made in order, and the first error.
- `wrappers.dfy`: `Option`, `Result` and `Outcome` (module `Wrappers`), and
  the run's exceptions (module `Errors`).

Details of the code the model follows:
- The pattern needs the literal text `<a href=`, not just any `<a>` element.
- The repository reported is the feed entry's `link`, not a URL taken from
  the content.
- `hook['url']` is read before the membership check (line 184), so any
  hook lacking `url` ends the run.
- A hook lacking `events` raises only when it is about to be injected
  (line 100), so an already-present hook without `events` passes.

## Model

| member | source | states |
|---|---|---|
| ActivityPattern.MatchActivityCorrect | gitbucket_servicehook_injector/gitbucket_servicehook_injector.py:57-63 | the computed activity is `w` exactly when the pattern matches at offset 0 and `w` is the word of the split whose first `.*` is longest; there is no word exactly when no split fits |
| ActivityPattern.LastSplit | gitbucket_servicehook_injector/gitbucket_servicehook_injector.py:57-61 | the end chosen for the first `.*` is the largest one in range at which the rest of the pattern matches; none is returned only when no end fits |
| ActivityPattern.LetterRunEnd | gitbucket_servicehook_injector/gitbucket_servicehook_injector.py:57 | `[a-zA-Z]+` greedily spans letters only and stops at the end or at a non-letter |
| ActivityPattern.NewlineFrom | gitbucket_servicehook_injector/gitbucket_servicehook_injector.py:57 | `.*` cannot cross a newline: the span returned holds none and ends at a newline or at the end |
| ActivityPattern.CloseFromTail | gitbucket_servicehook_injector/gitbucket_servicehook_injector.py:57 | the scan for the trailing `.*</a>` succeeds exactly when a `</a>` occurs before the next newline |
| ActivityPattern.SplitRestUnique | gitbucket_servicehook_injector/gitbucket_servicehook_injector.py:57 | once the first `.*` is fixed, the activity word is determined (it must be followed by a space) |
| ActivityPattern.SplitBeforeNewline | gitbucket_servicehook_injector/gitbucket_servicehook_injector.py:57 | no split's first `.*` runs past the first newline |
| ActivityPattern.CapturesUnique | gitbucket_servicehook_injector/gitbucket_servicehook_injector.py:61-63 | the captured word is unique |
| ActivityPattern.MatchActivitySome | gitbucket_servicehook_injector/gitbucket_servicehook_injector.py:61-63 | a computed word is the captured one |
| ActivityPattern.MatchesHasWord | gitbucket_servicehook_injector/gitbucket_servicehook_injector.py:61-62 | whenever the pattern matches, a word is computed |
| ActivityPattern.ActivityWordShape | gitbucket_servicehook_injector/gitbucket_servicehook_injector.py:57-63 | the captured word is non-empty ASCII letters, the content starts with `<a href=`, and the word sits between `</a> ` and ` <a href=` |
| ActivityPattern.SplitExtends | gitbucket_servicehook_injector/gitbucket_servicehook_injector.py:61 | appending text keeps every split: the match is not anchored at the end |
| ActivityPattern.MatchIgnoresTrailing | gitbucket_servicehook_injector/gitbucket_servicehook_injector.py:61 | content that matches still matches with any text appended |
| ActivityPattern.ActivityOfLinks | gitbucket_servicehook_injector/gitbucket_servicehook_injector.py:57-63 | `<a href=X</a> WORD <a href=Y</a>` with `X`, `Y` free of `<` and newlines yields `WORD` |
| FeedReader.GetCreatedRepositories | gitbucket_servicehook_injector/gitbucket_servicehook_injector.py:54-67 | the loop returns exactly the reference list of links of `created` entries, in feed order |
| FeedReader.SelectedLinksAppend | gitbucket_servicehook_injector/gitbucket_servicehook_injector.py:59-65 | the links of a concatenated feed are the links of its parts in order, so order is kept and nothing is deduplicated |
| FeedReader.SelectedLinksOne | gitbucket_servicehook_injector/gitbucket_servicehook_injector.py:62-65 | one entry contributes its link exactly when selected |
| FeedReader.SelectedLinksBound | gitbucket_servicehook_injector/gitbucket_servicehook_injector.py:59-65 | at most one link per entry |
| FeedReader.SelectedLinksMembers | gitbucket_servicehook_injector/gitbucket_servicehook_injector.py:59-65 | a link is output exactly when some selected entry carries it |
| FeedReader.SkipsOtherActivities | gitbucket_servicehook_injector/gitbucket_servicehook_injector.py:61-65 | an entry that does not match, or whose word is not `created`, leaves the output unchanged |
| FeedReader.KeepsDuplicates | gitbucket_servicehook_injector/gitbucket_servicehook_injector.py:64-65 | two creation entries with the same link both appear |
| FeedReader.CreationEntry | gitbucket_servicehook_injector/gitbucket_servicehook_injector.py:57-65 | an entry `<a href=X</a> WORD <a href=Y</a>` is selected exactly when `WORD` is `created` |
| FeedReader.OneCreationEntry | gitbucket_servicehook_injector/gitbucket_servicehook_injector.py:57-65 | a feed of one such `created` entry yields that entry's link |
| HookForm.EventFieldInjective | gitbucket_servicehook_injector/gitbucket_servicehook_injector.py:108 | distinct events give distinct fields |
| HookForm.EventFieldIsNotBase | gitbucket_servicehook_injector/gitbucket_servicehook_injector.py:101-108 | an event field never overwrites `url`, `ctype` or `token` |
| HookForm.EnabledFieldsMembers | gitbucket_servicehook_injector/gitbucket_servicehook_injector.py:106-108 | the event fields set are exactly those of events whose flag is true |
| HookForm.FormDataCorrect | gitbucket_servicehook_injector/gitbucket_servicehook_injector.py:100-108 | the form exists exactly when `url` and `events` are configured (missing `events` is reported first); it has `url`, `ctype` (default `json`), `token` (default empty), `events.<name>` = `on` for true flags, nothing for false flags, and no other key |
| HookForm.HookFormUnique | gitbucket_servicehook_injector/gitbucket_servicehook_injector.py:101-108 | those properties determine the form completely |
| HookForm.BuildForm | gitbucket_servicehook_injector/gitbucket_servicehook_injector.py:99-108 | the loop over the events builds exactly the reference form, or raises the same missing key |
| HookForm.PushOnlyForm | gitbucket_servicehook_injector/gitbucket_servicehook_injector.py:100-108 | `push: true, pull_request: false` with no `ctype`/`token` gives `url`, `ctype=json`, `token=`, `events.push=on` and nothing else |
| Injector.RunInjector | gitbucket_servicehook_injector/gitbucket_servicehook_injector.py:163-197 | the nested loops with `continue` and early exit compute exactly the reference run |
| Injector.LoginOnlyWhenRepositories | gitbucket_servicehook_injector/gitbucket_servicehook_injector.py:167-171 | sign-in is attempted exactly when the created list is non-empty; otherwise nothing is done and the run succeeds |
| Injector.LoginFailureAborts | gitbucket_servicehook_injector/gitbucket_servicehook_injector.py:167-197 | a failed sign-in injects nothing, is the run's error, and gives exit status 1 |
| Injector.HookStepsWanted | gitbucket_servicehook_injector/gitbucket_servicehook_injector.py:183-194 | for one repository the injections are a prefix of the configured hooks not listed, in config order, and all of them if nothing fails |
| Injector.RepoStepsWanted | gitbucket_servicehook_injector/gitbucket_servicehook_injector.py:173-194 | the same over all repositories, repository by repository |
| Injector.InjectionOrder | gitbucket_servicehook_injector/gitbucket_servicehook_injector.py:173-197 | a run injects a prefix of repo-major, config-minor wanted hooks, and all of them when it succeeds |
| Injector.WantedMembers | gitbucket_servicehook_injector/gitbucket_servicehook_injector.py:183-192 | a hook is wanted for a repository exactly when it is configured, has a URL and that URL is not listed |
| Injector.AllWantedMembers | gitbucket_servicehook_injector/gitbucket_servicehook_injector.py:173-192 | an injection is wanted exactly when its repository is created and listable and the hook is wanted there |
| Injector.InjectedHooksWereMissing | gitbucket_servicehook_injector/gitbucket_servicehook_injector.py:173-192 | every injection is a configured hook for a created repository whose listed URLs do not contain its URL |
| Injector.ExistingHookNeverInjected | gitbucket_servicehook_injector/gitbucket_servicehook_injector.py:185-187 | a hook whose URL is already listed for a repository is never injected there |
| Injector.HookStepsAllListed | gitbucket_servicehook_injector/gitbucket_servicehook_injector.py:183-187 | if every configured URL is listed, one repository needs no request and no error |
| Injector.RepoStepsAllListed | gitbucket_servicehook_injector/gitbucket_servicehook_injector.py:173-187 | the same for all repositories |
| Injector.AllPresentInjectsNothing | gitbucket_servicehook_injector/gitbucket_servicehook_injector.py:167-192 | when every configured URL is listed everywhere, the run injects nothing and succeeds |
| Injector.RerunInjectsNothing | gitbucket_servicehook_injector/gitbucket_servicehook_injector.py:173-194 | a second run against the platform as left by a successful run injects nothing and succeeds |
| Injector.InjectedUrlsMembers | gitbucket_servicehook_injector/gitbucket_servicehook_injector.py:189-192 | the URL of every injected hook is among those added to its repository |
| Injector.HookStepsPassHasUrls | gitbucket_servicehook_injector/gitbucket_servicehook_injector.py:183-184 | a repository processed without error means every configured hook has a `url` |
| Injector.RepoStepsPassListsAll | gitbucket_servicehook_injector/gitbucket_servicehook_injector.py:173-184 | a run without error listed every created repository successfully |
| Injector.RepoStepsSplit | gitbucket_servicehook_injector/gitbucket_servicehook_injector.py:173-197 | the work over a list of repositories is the work over a prefix followed, if that passed, by the rest |
| Injector.ListingFailureStops | gitbucket_servicehook_injector/gitbucket_servicehook_injector.py:173-197 | a failed listing of repository `n` keeps the earlier injections, ends with that error, and no later repository is touched |
| Injector.HookStepsFirstFails | gitbucket_servicehook_injector/gitbucket_servicehook_injector.py:183-197 | a hook that raises stops the inner loop at once with its error and no injection |
| Injector.HookStepsSplit | gitbucket_servicehook_injector/gitbucket_servicehook_injector.py:183-197 | the work for one repository over a list of hooks is the work over a prefix followed, if that passed, by the rest |
| Injector.HookStepsPassIff | gitbucket_servicehook_injector/gitbucket_servicehook_injector.py:183-192 | one repository's work succeeds exactly when no configured hook raises (missing `url`, or for an unlisted hook missing `events` or a failed POST) |
| Injector.RepoStepsPassIff | gitbucket_servicehook_injector/gitbucket_servicehook_injector.py:173-192 | the work over all repositories succeeds exactly when each can be listed and none of its hooks raises |
| Injector.RunSucceeds | gitbucket_servicehook_injector/gitbucket_servicehook_injector.py:167-197 | a run has exit status 0 exactly when there is nothing to do, or sign-in succeeds and no listing or hook raises |
| Injector.HookFailureStops | gitbucket_servicehook_injector/gitbucket_servicehook_injector.py:183-197 | when hook `k` raises in repository `n`, the run keeps exactly the injections before it, ends with that error and exit status 1, and touches no later hook or repository |
| Injector.SameNewUrlInjectedTwice | gitbucket_servicehook_injector/gitbucket_servicehook_injector.py:174-192 | the listed URLs are not refreshed inside a repository: two hooks with the same new URL are both injected |
| Injector.OnePushHook | gitbucket_servicehook_injector/gitbucket_servicehook_injector.py:167-194 | one repository without hooks and one `push` hook gives exactly one injection and success |
| Injector.SingleCreatedRepository | gitbucket_servicehook_injector/gitbucket_servicehook_injector.py:163-194 | from a feed with one `created` entry to that one injection, end to end |

## Left out

- Network I/O is left out: the `requests` session, the sign-in POST (lines 70-79), the GET of the hooks page (lines 84-85) and the new-hook POST (lines 109-110). Their outcomes are the `Platform` parameters.
- `feedparser.parse` (line 56) is a foreign library: the entries are given as `(content, link)` pairs. An entry lacking `content` or `link` would raise `KeyError`; that case is not modelled.
- The BeautifulSoup scraping (lines 86-94) depends on a third-party DOM: `Platform.listing` gives its result per repository, or an error such as `LayoutMismatch` for a missing table or span.
- `urljoin` (lines 169, 176, 191) is reference resolution in a library: `listing` and `post` take the repository URL instead of the derived endpoint.
- `Platform.listing` is a fixed function of the repository. A repository that appears twice in the feed is listed with the same answer both times, whereas the live platform would by then also show the hooks injected at its first occurrence.
- Logging (lines 26-51 and the log calls), argparse and version lookup (lines 114-150), and YAML loading (lines 159-160) are process plumbing. A missing top-level configuration key (`feed_url`, `root_url`, `admin_user`, `service_hooks`) is not modelled.
- Configuration values are typed: `url`, `ctype` and `token` are strings and event flags are booleans. Python truthiness of other values is not modelled. Neither is `requests` dropping a field whose value is `None`.
- The form is a map: the order in which its fields are encoded into the POST body is not modelled.
- The exception's logged message and trace are not modelled; only which error ended the run is.
- `setup.py` is packaging metadata with no logic.
