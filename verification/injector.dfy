/** The run of the injector (`main`): read the created repositories from
    the feed, log in only when there are some, then for each repository in
    feed order list its existing service hooks once and inject every
    configured hook, in configuration order, whose `url` is not among them.
    The first exception ends the whole run with exit status 1.

    The platform's answers are parameters: whether the sign-in succeeds,
    what the hooks page of a repository lists (or which error reading it
    raises), and whether the POST of a new hook succeeds. */
module Injector {
  import opened Wrappers
  import opened Errors
  import opened FeedReader
  import opened HookForm

  datatype Platform = Platform(
    login: Outcome<Error>,
    listing: string -> Result<seq<string>, Error>,
    post: (string, map<string, string>) -> Outcome<Error>)

  /** One service hook added to one repository. */
  datatype Injection = Injection(repo: string, hook: HookSpec)

  /** The hooks injected, in order, and how the work ended. */
  datatype Trace = Trace(injected: seq<Injection>, outcome: Outcome<Error>)

  datatype Run = Run(loginAttempted: bool, injected: seq<Injection>, status: Outcome<Error>)

  function ExitCode(run: Run): int {
    if run.status.Pass? then 0 else 1
  }

  /** `first`, then `rest` unless `first` failed. */
  function Then(first: Trace, rest: Trace): Trace {
    if first.outcome.Fail? then first
    else Trace(first.injected + rest.injected, rest.outcome)
  }

  /** The inner loop for one repository, against the hook URLs listed for it. */
  function HookSteps(platform: Platform, repo: string, existing: seq<string>, hooks: seq<HookSpec>): Trace {
    if hooks == [] then Trace([], Pass)
    else
      var hook := hooks[0];
      if hook.url.None? then Trace([], Fail(MissingKey("url")))
      else if hook.url.value in existing then HookSteps(platform, repo, existing, hooks[1..])
      else match FormData(hook)
        case Err(e) => Trace([], Fail(e))
        case Ok(form) =>
          match platform.post(repo, form)
          case Fail(e) => Trace([], Fail(e))
          case Pass => Then(Trace([Injection(repo, hook)], Pass), HookSteps(platform, repo, existing, hooks[1..]))
  }

  /** The outer loop over the created repositories. */
  function RepoSteps(platform: Platform, repos: seq<string>, hooks: seq<HookSpec>): Trace {
    if repos == [] then Trace([], Pass)
    else match platform.listing(repos[0])
      case Err(e) => Trace([], Fail(e))
      case Ok(existing) => Then(HookSteps(platform, repos[0], existing, hooks), RepoSteps(platform, repos[1..], hooks))
  }

  /** Reference definition of a run over the created repositories `repos`. */
  function Inject(repos: seq<string>, platform: Platform, hooks: seq<HookSpec>): Run {
    if repos == [] then Run(false, [], Pass)
    else if platform.login.Fail? then Run(true, [], platform.login)
    else
      var t := RepoSteps(platform, repos, hooks);
      Run(true, t.injected, t.outcome)
  }

  /** The hooks wanted for one repository: every configured hook whose URL
      is not listed, in configuration order. */
  function Wanted(repo: string, existing: seq<string>, hooks: seq<HookSpec>): seq<Injection> {
    if hooks == [] then []
    else
      (if hooks[0].url.Some? && hooks[0].url.value !in existing then [Injection(repo, hooks[0])] else [])
      + Wanted(repo, existing, hooks[1..])
  }

  /** The hooks wanted for all repositories, repository by repository. */
  function AllWanted(platform: Platform, repos: seq<string>, hooks: seq<HookSpec>): seq<Injection> {
    if repos == [] then []
    else
      (match platform.listing(repos[0])
       case Ok(existing) => Wanted(repos[0], existing, hooks)
       case Err(_) => [])
      + AllWanted(platform, repos[1..], hooks)
  }

  lemma ThenAssoc(a: Trace, b: Trace, c: Trace)
    ensures Then(Then(a, b), c) == Then(a, Then(b, c))
  {
  }

  lemma ThenEmpty(t: Trace)
    ensures Then(Trace([], Pass), t) == t
  {
  }

  /** Appending one injection to what the loops have done so far. */
  lemma ThenAppend(done: seq<Injection>, inj: Injection, t: Trace)
    ensures Then(Trace(done, Pass), Then(Trace([inj], Pass), t)) == Then(Trace(done + [inj], Pass), t)
  {
  }

  /** `main` from the feed on: the two nested loops, with `continue` for a
      hook that is already there and an early return for the first error. */
  method RunInjector(entries: seq<FeedEntry>, platform: Platform, hooks: seq<HookSpec>) returns (run: Run)
    ensures run == Inject(CreatedLinks(entries), platform, hooks)
  {
    var repos := GetCreatedRepositories(entries);
    if |repos| == 0 {
      return Run(false, [], Pass);
    }
    if platform.login.Fail? {
      return Run(true, [], platform.login);
    }
    var injected: seq<Injection> := [];
    ThenEmpty(RepoSteps(platform, repos, hooks));
    var i := 0;
    while i < |repos|
      invariant 0 <= i <= |repos|
      invariant RepoSteps(platform, repos, hooks) == Then(Trace(injected, Pass), RepoSteps(platform, repos[i..], hooks))
    {
      var repo := repos[i];
      assert repos[i..][1..] == repos[i + 1..];
      var listed := platform.listing(repo);
      if listed.Err? {
        return Run(true, injected, Fail(listed.error));
      }
      var existing := listed.value;
      ghost var later := RepoSteps(platform, repos[i + 1..], hooks);
      assert RepoSteps(platform, repos[i..], hooks) == Then(HookSteps(platform, repo, existing, hooks), later);
      var k := 0;
      while k < |hooks|
        invariant 0 <= k <= |hooks|
        invariant RepoSteps(platform, repos, hooks) ==
          Then(Trace(injected, Pass), Then(HookSteps(platform, repo, existing, hooks[k..]), later))
      {
        var hook := hooks[k];
        assert hooks[k..][1..] == hooks[k + 1..];
        ghost var rest := HookSteps(platform, repo, existing, hooks[k + 1..]);
        if hook.url.None? {
          return Run(true, injected, Fail(MissingKey("url")));
        }
        if hook.url.value in existing {
          assert HookSteps(platform, repo, existing, hooks[k..]) == rest;
          k := k + 1;
          continue;
        }
        var form := BuildForm(hook);
        if form.Err? {
          return Run(true, injected, Fail(form.error));
        }
        var posted := platform.post(repo, form.value);
        if posted.Fail? {
          return Run(true, injected, posted);
        }
        assert HookSteps(platform, repo, existing, hooks[k..]) == Then(Trace([Injection(repo, hook)], Pass), rest);
        ThenAssoc(Trace([Injection(repo, hook)], Pass), rest, later);
        ThenAppend(injected, Injection(repo, hook), Then(rest, later));
        injected := injected + [Injection(repo, hook)];
        k := k + 1;
      }
      assert hooks[k..] == [];
      ThenEmpty(later);
      i := i + 1;
    }
    assert repos[i..] == [];
    return Run(true, injected, Pass);
  }

  /** Sign-in happens exactly when the feed reported created repositories;
      with none, nothing at all is done. */
  lemma LoginOnlyWhenRepositories(repos: seq<string>, platform: Platform, hooks: seq<HookSpec>)
    ensures Inject(repos, platform, hooks).loginAttempted <==> |repos| > 0
    ensures repos == [] ==> Inject(repos, platform, hooks) == Run(false, [], Pass)
  {
  }

  /** A failed sign-in ends the run before any repository is looked at. */
  lemma LoginFailureAborts(repos: seq<string>, platform: Platform, hooks: seq<HookSpec>)
    requires repos != [] && platform.login.Fail?
    ensures Inject(repos, platform, hooks).injected == []
    ensures Inject(repos, platform, hooks).status == platform.login
    ensures ExitCode(Inject(repos, platform, hooks)) == 1
  {
  }

  lemma PrefixCons(inj: Injection, a: seq<Injection>, b: seq<Injection>)
    requires a <= b
    ensures [inj] + a <= [inj] + b
  {
    assert ([inj] + b)[..|[inj] + a|] == [inj] + b[..|a|];
  }

  lemma PrefixAppend(a: seq<Injection>, b: seq<Injection>, c: seq<Injection>)
    requires b <= c
    ensures a + b <= a + c
  {
    assert (a + c)[..|a + b|] == a + c[..|b|];
  }

  /** For one repository: what is injected is a prefix of the wanted hooks,
      and all of them when no error occurs. */
  lemma {:induction false} HookStepsWanted(platform: Platform, repo: string, existing: seq<string>, hooks: seq<HookSpec>)
    ensures HookSteps(platform, repo, existing, hooks).injected <= Wanted(repo, existing, hooks)
    ensures HookSteps(platform, repo, existing, hooks).outcome.Pass? ==>
      HookSteps(platform, repo, existing, hooks).injected == Wanted(repo, existing, hooks)
  {
    if hooks != [] {
      HookStepsWanted(platform, repo, existing, hooks[1..]);
      var hook := hooks[0];
      var t := HookSteps(platform, repo, existing, hooks[1..]);
      if hook.url.Some? && hook.url.value !in existing && FormData(hook).Ok? &&
         platform.post(repo, FormData(hook).value).Pass? {
        PrefixCons(Injection(repo, hook), t.injected, Wanted(repo, existing, hooks[1..]));
      }
    }
  }

  /** For all repositories: the same, repository by repository. */
  lemma {:induction false} RepoStepsWanted(platform: Platform, repos: seq<string>, hooks: seq<HookSpec>)
    ensures RepoSteps(platform, repos, hooks).injected <= AllWanted(platform, repos, hooks)
    ensures RepoSteps(platform, repos, hooks).outcome.Pass? ==>
      RepoSteps(platform, repos, hooks).injected == AllWanted(platform, repos, hooks)
  {
    if repos != [] && platform.listing(repos[0]).Ok? {
      var existing := platform.listing(repos[0]).value;
      var h := HookSteps(platform, repos[0], existing, hooks);
      var w := Wanted(repos[0], existing, hooks);
      HookStepsWanted(platform, repos[0], existing, hooks);
      RepoStepsWanted(platform, repos[1..], hooks);
      if h.outcome.Pass? {
        PrefixAppend(w, RepoSteps(platform, repos[1..], hooks).injected, AllWanted(platform, repos[1..], hooks));
      } else {
        assert w[..|h.injected|] == (w + AllWanted(platform, repos[1..], hooks))[..|h.injected|];
      }
    }
  }

  /** Injections follow repository order first and configuration order
      within a repository: the run injects a prefix of `AllWanted`, and
      all of it when it ends without error. */
  lemma InjectionOrder(repos: seq<string>, platform: Platform, hooks: seq<HookSpec>)
    ensures Inject(repos, platform, hooks).injected <= AllWanted(platform, repos, hooks)
    ensures Inject(repos, platform, hooks).status.Pass? ==>
      Inject(repos, platform, hooks).injected == AllWanted(platform, repos, hooks)
  {
    RepoStepsWanted(platform, repos, hooks);
  }

  lemma {:induction false} WantedMembers(repo: string, existing: seq<string>, hooks: seq<HookSpec>, inj: Injection)
    ensures inj in Wanted(repo, existing, hooks) <==>
      inj.repo == repo && inj.hook in hooks && inj.hook.url.Some? && inj.hook.url.value !in existing
  {
    if hooks != [] {
      WantedMembers(repo, existing, hooks[1..], inj);
      assert inj.hook in hooks <==> inj.hook == hooks[0] || inj.hook in hooks[1..];
    }
  }

  lemma {:induction false} AllWantedMembers(platform: Platform, repos: seq<string>, hooks: seq<HookSpec>, inj: Injection)
    ensures inj in AllWanted(platform, repos, hooks) <==>
      && inj.repo in repos && platform.listing(inj.repo).Ok?
      && inj in Wanted(inj.repo, platform.listing(inj.repo).value, hooks)
  {
    if repos != [] {
      AllWantedMembers(platform, repos[1..], hooks, inj);
      assert inj.repo in repos <==> inj.repo == repos[0] || inj.repo in repos[1..];
      if platform.listing(repos[0]).Ok? {
        WantedMembers(repos[0], platform.listing(repos[0]).value, hooks, inj);
      }
    }
  }

  /** Every injected hook is a configured hook, for a created repository
      whose listed hooks do not contain its URL. */
  lemma InjectedHooksWereMissing(repos: seq<string>, platform: Platform, hooks: seq<HookSpec>, inj: Injection)
    requires inj in Inject(repos, platform, hooks).injected
    ensures inj.repo in repos && inj.hook in hooks
    ensures platform.listing(inj.repo).Ok? && inj.hook.url.Some?
    ensures inj.hook.url.value !in platform.listing(inj.repo).value
  {
    InjectionOrder(repos, platform, hooks);
    var all := AllWanted(platform, repos, hooks);
    var run := Inject(repos, platform, hooks);
    assert inj in all by {
      var k :| 0 <= k < |run.injected| && run.injected[k] == inj;
      assert all[k] == inj;
    }
    AllWantedMembers(platform, repos, hooks, inj);
    WantedMembers(inj.repo, platform.listing(inj.repo).value, hooks, inj);
  }

  /** A hook whose URL is already listed for a repository is never injected there. */
  lemma ExistingHookNeverInjected(repos: seq<string>, platform: Platform, hooks: seq<HookSpec>, repo: string, hook: HookSpec)
    requires platform.listing(repo).Ok? && hook.url.Some? && hook.url.value in platform.listing(repo).value
    ensures Injection(repo, hook) !in Inject(repos, platform, hooks).injected
  {
    if Injection(repo, hook) in Inject(repos, platform, hooks).injected {
      InjectedHooksWereMissing(repos, platform, hooks, Injection(repo, hook));
    }
  }

  /** Every configured URL is already listed for `repo`. */
  ghost predicate AllListed(existing: seq<string>, hooks: seq<HookSpec>) {
    forall h :: h in hooks ==> h.url.Some? && h.url.value in existing
  }

  lemma {:induction false} HookStepsAllListed(platform: Platform, repo: string, existing: seq<string>, hooks: seq<HookSpec>)
    requires AllListed(existing, hooks)
    ensures HookSteps(platform, repo, existing, hooks) == Trace([], Pass)
  {
    if hooks != [] {
      assert hooks[0] in hooks;
      HookStepsAllListed(platform, repo, existing, hooks[1..]);
    }
  }

  lemma {:induction false} RepoStepsAllListed(platform: Platform, repos: seq<string>, hooks: seq<HookSpec>)
    requires forall r :: r in repos ==> platform.listing(r).Ok? && AllListed(platform.listing(r).value, hooks)
    ensures RepoSteps(platform, repos, hooks) == Trace([], Pass)
  {
    if repos != [] {
      assert repos[0] in repos;
      HookStepsAllListed(platform, repos[0], platform.listing(repos[0]).value, hooks);
      RepoStepsAllListed(platform, repos[1..], hooks);
    }
  }

  /** When every configured URL is already listed for every created
      repository, the run injects nothing and succeeds. */
  lemma AllPresentInjectsNothing(repos: seq<string>, platform: Platform, hooks: seq<HookSpec>)
    requires platform.login.Pass?
    requires forall r :: r in repos ==> platform.listing(r).Ok? && AllListed(platform.listing(r).value, hooks)
    ensures Inject(repos, platform, hooks) == Run(repos != [], [], Pass)
  {
    RepoStepsAllListed(platform, repos, hooks);
  }

  /** The URLs injected into `repo`. */
  function InjectedUrls(injected: seq<Injection>, repo: string): seq<string> {
    if injected == [] then []
    else
      (if injected[0].repo == repo && injected[0].hook.url.Some? then [injected[0].hook.url.value] else [])
      + InjectedUrls(injected[1..], repo)
  }

  lemma {:induction false} InjectedUrlsMembers(injected: seq<Injection>, inj: Injection)
    requires inj in injected && inj.hook.url.Some?
    ensures inj.hook.url.value in InjectedUrls(injected, inj.repo)
  {
    if injected[0] != inj {
      InjectedUrlsMembers(injected[1..], inj);
    }
  }

  /** The platform after a run: each repository's hooks page also lists the
      URLs injected into it. */
  function AfterRun(platform: Platform, injected: seq<Injection>): Platform {
    Platform(
      platform.login,
      (r: string) =>
        match platform.listing(r)
        case Ok(existing) => Ok(existing + InjectedUrls(injected, r))
        case Err(e) => Err(e),
      platform.post)
  }

  lemma {:induction false} HookStepsPassHasUrls(platform: Platform, repo: string, existing: seq<string>, hooks: seq<HookSpec>)
    requires HookSteps(platform, repo, existing, hooks).outcome.Pass?
    ensures forall h :: h in hooks ==> h.url.Some?
  {
    if hooks != [] {
      HookStepsPassHasUrls(platform, repo, existing, hooks[1..]);
    }
  }

  lemma {:induction false} RepoStepsPassListsAll(platform: Platform, repos: seq<string>, hooks: seq<HookSpec>)
    requires RepoSteps(platform, repos, hooks).outcome.Pass?
    ensures forall r :: r in repos ==> platform.listing(r).Ok?
    ensures repos != [] ==> forall h :: h in hooks ==> h.url.Some?
  {
    if repos != [] {
      HookStepsPassHasUrls(platform, repos[0], platform.listing(repos[0]).value, hooks);
      RepoStepsPassListsAll(platform, repos[1..], hooks);
    }
  }

  /** Running again after a successful run injects nothing: every hook the
      first run injected is listed by then. */
  lemma RerunInjectsNothing(repos: seq<string>, platform: Platform, hooks: seq<HookSpec>)
    requires Inject(repos, platform, hooks).status.Pass?
    ensures Inject(repos, AfterRun(platform, Inject(repos, platform, hooks).injected), hooks) == Run(repos != [], [], Pass)
  {
    if repos != [] {
      var injected := Inject(repos, platform, hooks).injected;
      var after := AfterRun(platform, injected);
      RepoStepsPassListsAll(platform, repos, hooks);
      InjectionOrder(repos, platform, hooks);
      forall r | r in repos ensures after.listing(r).Ok? && AllListed(after.listing(r).value, hooks) {
        var existing := platform.listing(r).value;
        assert after.listing(r) == Ok(existing + InjectedUrls(injected, r));
        forall h | h in hooks ensures h.url.value in existing + InjectedUrls(injected, r) {
          if h.url.value !in existing {
            WantedMembers(r, existing, hooks, Injection(r, h));
            AllWantedMembers(platform, repos, hooks, Injection(r, h));
            InjectedUrlsMembers(injected, Injection(r, h));
          }
        }
      }
      AllPresentInjectsNothing(repos, after, hooks);
    }
  }

  /** Splitting the repositories splits the work. */
  lemma {:induction false} RepoStepsSplit(platform: Platform, repos: seq<string>, hooks: seq<HookSpec>, n: nat)
    requires n <= |repos|
    ensures RepoSteps(platform, repos, hooks) ==
      Then(RepoSteps(platform, repos[..n], hooks), RepoSteps(platform, repos[n..], hooks))
  {
    if n == 0 {
      assert repos[n..] == repos;
    } else {
      assert repos[..n][1..] == repos[1..][..n - 1];
      assert repos[n..] == repos[1..][n - 1..];
      RepoStepsSplit(platform, repos[1..], hooks, n - 1);
      if platform.listing(repos[0]).Ok? {
        var h := HookSteps(platform, repos[0], platform.listing(repos[0]).value, hooks);
        ThenAssoc(h, RepoSteps(platform, repos[1..][..n - 1], hooks), RepoSteps(platform, repos[n..], hooks));
      }
    }
  }

  /** When listing the hooks of repository `n` fails, the run keeps what the
      earlier repositories got, ends with that error, and touches no later
      repository. */
  lemma ListingFailureStops(platform: Platform, repos: seq<string>, hooks: seq<HookSpec>, n: nat)
    requires n < |repos| && platform.listing(repos[n]).Err?
    requires RepoSteps(platform, repos[..n], hooks).outcome.Pass?
    ensures RepoSteps(platform, repos, hooks) ==
      Trace(RepoSteps(platform, repos[..n], hooks).injected, Fail(platform.listing(repos[n]).error))
  {
    RepoStepsSplit(platform, repos, hooks, n);
    assert repos[n..][0] == repos[n];
  }

  /** The error that handling one hook raises, if any: a missing `url`
      (read before the membership test), then, for a hook not yet listed,
      a missing key while building the form or a failed POST. */
  function HookError(platform: Platform, repo: string, existing: seq<string>, hook: HookSpec): Option<Error> {
    if hook.url.None? then Some(MissingKey("url"))
    else if hook.url.value in existing then None
    else if FormData(hook).Err? then Some(FormData(hook).error)
    else if platform.post(repo, FormData(hook).value).Fail? then Some(platform.post(repo, FormData(hook).value).error)
    else None
  }

  /** No configured hook raises for this repository. */
  ghost predicate NoHookFails(platform: Platform, repo: string, existing: seq<string>, hooks: seq<HookSpec>) {
    forall k :: 0 <= k < |hooks| ==> HookError(platform, repo, existing, hooks[k]).None?
  }

  /** Every repository can be listed and no hook raises in any of them. */
  ghost predicate NothingFails(platform: Platform, repos: seq<string>, hooks: seq<HookSpec>) {
    forall i :: 0 <= i < |repos| ==>
      platform.listing(repos[i]).Ok? && NoHookFails(platform, repos[i], platform.listing(repos[i]).value, hooks)
  }

  /** A hook that raises stops the inner loop on the spot, with its error. */
  lemma HookStepsFirstFails(platform: Platform, repo: string, existing: seq<string>, hooks: seq<HookSpec>, e: Error)
    requires hooks != [] && HookError(platform, repo, existing, hooks[0]) == Some(e)
    ensures HookSteps(platform, repo, existing, hooks) == Trace([], Fail(e))
  {
  }

  /** Splitting the configured hooks splits the work for one repository. */
  lemma {:induction false} HookStepsSplit(platform: Platform, repo: string, existing: seq<string>, hooks: seq<HookSpec>, k: nat)
    requires k <= |hooks|
    ensures HookSteps(platform, repo, existing, hooks) ==
      Then(HookSteps(platform, repo, existing, hooks[..k]), HookSteps(platform, repo, existing, hooks[k..]))
  {
    if k == 0 {
      assert hooks[..k] == [];
      assert hooks[k..] == hooks;
      ThenEmpty(HookSteps(platform, repo, existing, hooks));
    } else {
      var h := hooks[0];
      assert hooks[..k][0] == h;
      assert hooks[..k][1..] == hooks[1..][..k - 1];
      assert hooks[k..] == hooks[1..][k - 1..];
      HookStepsSplit(platform, repo, existing, hooks[1..], k - 1);
      if HookError(platform, repo, existing, h).None? && h.url.value !in existing {
        ThenAssoc(Trace([Injection(repo, h)], Pass), HookSteps(platform, repo, existing, hooks[1..][..k - 1]),
          HookSteps(platform, repo, existing, hooks[k..]));
      }
    }
  }

  /** One repository's work succeeds exactly when none of its hooks raises. */
  lemma {:induction false} HookStepsPassIff(platform: Platform, repo: string, existing: seq<string>, hooks: seq<HookSpec>)
    ensures HookSteps(platform, repo, existing, hooks).outcome.Pass? <==> NoHookFails(platform, repo, existing, hooks)
  {
    if hooks != [] {
      HookStepsPassIff(platform, repo, existing, hooks[1..]);
      forall k | 0 < k < |hooks| ensures hooks[k] == hooks[1..][k - 1] { }
      if NoHookFails(platform, repo, existing, hooks[1..]) && HookError(platform, repo, existing, hooks[0]).None? {
        forall k | 0 <= k < |hooks| ensures HookError(platform, repo, existing, hooks[k]).None? {
          if k > 0 {
            assert hooks[k] == hooks[1..][k - 1];
          }
        }
      }
    }
  }

  /** The work over the repositories succeeds exactly when each can be
      listed and none of its hooks raises. */
  lemma {:induction false} RepoStepsPassIff(platform: Platform, repos: seq<string>, hooks: seq<HookSpec>)
    ensures RepoSteps(platform, repos, hooks).outcome.Pass? <==> NothingFails(platform, repos, hooks)
  {
    if repos != [] {
      RepoStepsPassIff(platform, repos[1..], hooks);
      forall i | 0 < i < |repos| ensures repos[i] == repos[1..][i - 1] { }
      if platform.listing(repos[0]).Ok? {
        HookStepsPassIff(platform, repos[0], platform.listing(repos[0]).value, hooks);
      }
      if NothingFails(platform, repos[1..], hooks) && platform.listing(repos[0]).Ok?
        && NoHookFails(platform, repos[0], platform.listing(repos[0]).value, hooks)
      {
        forall i | 0 <= i < |repos|
          ensures platform.listing(repos[i]).Ok? && NoHookFails(platform, repos[i], platform.listing(repos[i]).value, hooks)
        {
          if i > 0 {
            assert repos[i] == repos[1..][i - 1];
          }
        }
      }
    }
  }

  /** A run succeeds (exit status 0) exactly when there is nothing to do, or
      the sign-in succeeds, every repository can be listed and no hook raises. */
  lemma RunSucceeds(repos: seq<string>, platform: Platform, hooks: seq<HookSpec>)
    ensures Inject(repos, platform, hooks).status.Pass? <==>
      repos == [] || (platform.login.Pass? && NothingFails(platform, repos, hooks))
    ensures ExitCode(Inject(repos, platform, hooks)) == 0 <==> Inject(repos, platform, hooks).status.Pass?
  {
    RepoStepsPassIff(platform, repos, hooks);
  }

  /** When hook `k` raises `e` in repository `n`, after the earlier
      repositories and the earlier hooks of `n` went through, the run keeps
      exactly those injections, ends with `e`, and touches no later hook
      and no later repository. */
  lemma HookFailureStops(platform: Platform, repos: seq<string>, hooks: seq<HookSpec>, n: nat, existing: seq<string>, k: nat, e: Error)
    requires n < |repos| && RepoSteps(platform, repos[..n], hooks).outcome.Pass?
    requires platform.listing(repos[n]) == Ok(existing)
    requires k < |hooks| && HookSteps(platform, repos[n], existing, hooks[..k]).outcome.Pass?
    requires HookError(platform, repos[n], existing, hooks[k]) == Some(e)
    ensures RepoSteps(platform, repos, hooks) ==
      Trace(RepoSteps(platform, repos[..n], hooks).injected + HookSteps(platform, repos[n], existing, hooks[..k]).injected, Fail(e))
    ensures platform.login.Pass? ==>
      (Inject(repos, platform, hooks) ==
       Run(true, RepoSteps(platform, repos[..n], hooks).injected + HookSteps(platform, repos[n], existing, hooks[..k]).injected, Fail(e)))
    ensures ExitCode(Inject(repos, platform, hooks)) == 1
  {
    RepoStepsSplit(platform, repos, hooks, n);
    assert repos[n..][0] == repos[n];
    HookStepsSplit(platform, repos[n], existing, hooks, k);
    assert hooks[k..][0] == hooks[k];
    HookStepsFirstFails(platform, repos[n], existing, hooks[k..], e);
    var before := HookSteps(platform, repos[n], existing, hooks[..k]).injected;
    assert before + [] == before;
  }

  /** The existing list is not refreshed inside a repository: two hooks with
      the same new URL are both injected. */
  lemma SameNewUrlInjectedTwice(platform: Platform, repo: string, existing: seq<string>, h1: HookSpec, h2: HookSpec)
    requires h1.url.Some? && h1.url == h2.url && h1.url.value !in existing
    requires FormData(h1).Ok? && platform.post(repo, FormData(h1).value).Pass?
    requires FormData(h2).Ok? && platform.post(repo, FormData(h2).value).Pass?
    ensures HookSteps(platform, repo, existing, [h1, h2]) == Trace([Injection(repo, h1), Injection(repo, h2)], Pass)
  {
    assert [h1, h2][1..] == [h2];
    assert [h2][1..] == [];
    assert HookSteps(platform, repo, existing, [h2]) == Trace([Injection(repo, h2)], Pass);
  }

  /** One `created` entry for a repository without hooks and one configured
      hook with `push` on and `pull_request` off: a single injection, whose
      form is the one of `PushOnlyForm`, and the run succeeds. */
  lemma SingleCreatedRepository(x: string, y: string, repo: string, url: string, platform: Platform)
    requires ActivityPattern.Plain(x) && ActivityPattern.Plain(y)
    requires platform.login.Pass? && platform.listing(repo) == Ok([])
    requires platform.post(repo, map["url" := url, "ctype" := "json", "token" := "", "events.push" := "on"]).Pass?
    ensures
      var hook := HookSpec(Some(url), None, None, Some(map["push" := true, "pull_request" := false]));
      var entry := FeedEntry(ActivityPattern.ActivityText(x, "created", y), repo);
      Inject(CreatedLinks([entry]), platform, [hook]) == Run(true, [Injection(repo, hook)], Pass)
  {
    OneCreationEntry(x, y, repo);
    OnePushHook(platform, repo, url);
  }

  lemma OnePushHook(platform: Platform, repo: string, url: string)
    requires platform.login.Pass? && platform.listing(repo) == Ok([])
    requires platform.post(repo, map["url" := url, "ctype" := "json", "token" := "", "events.push" := "on"]).Pass?
    ensures
      var hook := HookSpec(Some(url), None, None, Some(map["push" := true, "pull_request" := false]));
      Inject([repo], platform, [hook]) == Run(true, [Injection(repo, hook)], Pass)
  {
    var hook := HookSpec(Some(url), None, None, Some(map["push" := true, "pull_request" := false]));
    PushOnlyForm(url);
    assert [hook][1..] == [];
    assert HookSteps(platform, repo, [], [hook]) == Trace([Injection(repo, hook)], Pass);
    assert [repo][1..] == [];
    assert RepoSteps(platform, [repo], [hook]) == Trace([Injection(repo, hook)], Pass);
  }
}
