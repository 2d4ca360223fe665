/** The hook injector's form: the fields posted to a repository's "new
    service hook" page for one configured service hook. The POST itself is
    outside the model. */
module HookForm {
  import opened Wrappers
  import opened Errors

  /** A configured service hook as loaded from the configuration file; a
      key that is absent there is `None` here. */
  datatype HookSpec = HookSpec(
    url: Option<string>,
    ctype: Option<string>,
    token: Option<string>,
    events: Option<map<string, bool>>)

  const EventPrefix: string := "events."

  /** The form field that turns on event `name`. */
  function EventField(name: string): (f: string)
    ensures |f| == |EventPrefix| + |name| && f[..|EventPrefix|] == EventPrefix
    ensures f[|EventPrefix|..] == name
  {
    EventPrefix + name
  }

  /** `f` names an event whose flag is true in `events`. */
  predicate IsEnabledField(f: string, events: map<string, bool>) {
    && |f| >= |EventPrefix|
    && f[..|EventPrefix|] == EventPrefix
    && f[|EventPrefix|..] in events
    && events[f[|EventPrefix|..]]
  }

  /** The fields set before the events: `url`, `ctype` (default `json`) and
      `token` (default empty). */
  function BaseFields(url: string, hook: HookSpec): map<string, string> {
    map["url" := url, "ctype" := hook.ctype.GetOr("json"), "token" := hook.token.GetOr("")]
  }

  /** The event fields of the events whose flag is true. */
  function EnabledFields(events: map<string, bool>, names: set<string>): set<string> {
    set name | name in names && name in events && events[name] :: EventField(name)
  }

  function AllOn(fields: set<string>): map<string, string> {
    map f | f in fields :: "on"
  }

  /** Reference definition of the form data, or the `KeyError` that
      building it raises: `events` is read first, then `url`. */
  function FormData(hook: HookSpec): Result<map<string, string>, Error> {
    if hook.events.None? then Err(MissingKey("events"))
    else if hook.url.None? then Err(MissingKey("url"))
    else Ok(BaseFields(hook.url.value, hook) + AllOn(EnabledFields(hook.events.value, hook.events.value.Keys)))
  }

  /** What the form promises: `url`, `ctype` and `token` with their defaults,
      `events.<name>` = `on` exactly for the events whose flag is true, and
      no other field. */
  ghost predicate IsHookForm(form: map<string, string>, url: string, hook: HookSpec, events: map<string, bool>) {
    && "url" in form && form["url"] == url
    && "ctype" in form && form["ctype"] == (if hook.ctype.Some? then hook.ctype.value else "json")
    && "token" in form && form["token"] == (if hook.token.Some? then hook.token.value else "")
    && (forall name :: name in events ==> (EventField(name) in form <==> events[name]))
    && (forall name :: name in events && events[name] ==> form[EventField(name)] == "on")
    && (forall f :: f in form ==> f == "url" || f == "ctype" || f == "token" || IsEnabledField(f, events))
  }

  lemma EventFieldInjective(a: string, b: string)
    requires EventField(a) == EventField(b)
    ensures a == b
  {
    assert a == EventField(a)[|EventPrefix|..];
  }

  /** Event fields never collide with `url`, `ctype` or `token`. */
  lemma EventFieldIsNotBase(name: string)
    ensures EventField(name) != "url" && EventField(name) != "ctype" && EventField(name) != "token"
  {
    assert |EventField(name)| >= 7;
  }

  lemma EnabledFieldsMembers(events: map<string, bool>, f: string)
    ensures f in EnabledFields(events, events.Keys) <==> IsEnabledField(f, events)
  {
    if IsEnabledField(f, events) {
      var name := f[|EventPrefix|..];
      assert f == EventField(name);
    }
    if f in EnabledFields(events, events.Keys) {
      var name :| name in events && events[name] && f == EventField(name);
    }
  }

  /** The form data exists exactly when `url` and `events` are configured,
      a missing `events` is reported first, and the form has exactly the
      promised fields. */
  lemma FormDataCorrect(hook: HookSpec)
    ensures FormData(hook).Ok? <==> hook.url.Some? && hook.events.Some?
    ensures hook.events.None? ==> FormData(hook) == Err(MissingKey("events"))
    ensures hook.events.Some? && hook.url.None? ==> FormData(hook) == Err(MissingKey("url"))
    ensures FormData(hook).Ok? ==> IsHookForm(FormData(hook).value, hook.url.value, hook, hook.events.value)
  {
    if FormData(hook).Ok? {
      var events := hook.events.value;
      var form := FormData(hook).value;
      var enabled := EnabledFields(events, events.Keys);
      forall name | name in events ensures EventField(name) in form <==> events[name] {
        EventFieldIsNotBase(name);
        EnabledFieldsMembers(events, EventField(name));
      }
      forall name | name in events && events[name] ensures form[EventField(name)] == "on" {
        EventFieldIsNotBase(name);
        EnabledFieldsMembers(events, EventField(name));
      }
      forall f | f in form ensures f == "url" || f == "ctype" || f == "token" || IsEnabledField(f, events) {
        EnabledFieldsMembers(events, f);
      }
    }
  }

  /** `IsHookForm` pins the form down completely. */
  lemma HookFormUnique(f1: map<string, string>, f2: map<string, string>, url: string, hook: HookSpec, events: map<string, bool>)
    requires IsHookForm(f1, url, hook, events) && IsHookForm(f2, url, hook, events)
    ensures f1 == f2
  {
    forall f | f in f1 ensures f in f2 && f1[f] == f2[f] {
      if f != "url" && f != "ctype" && f != "token" {
        var name := f[|EventPrefix|..];
        assert f == EventField(name);
      }
    }
    forall f | f in f2 ensures f in f1 {
      if f != "url" && f != "ctype" && f != "token" {
        var name := f[|EventPrefix|..];
        assert f == EventField(name);
      }
    }
  }

  lemma EnabledFieldsStep(events: map<string, bool>, done: set<string>, name: string)
    requires name in events
    ensures EnabledFields(events, done + {name}) ==
      if events[name] then EnabledFields(events, done) + {EventField(name)} else EnabledFields(events, done)
  {
  }

  lemma AllOnAdd(base: map<string, string>, fields: set<string>, f: string)
    ensures base + AllOn(fields + {f}) == (base + AllOn(fields))[f := "on"]
  {
  }

  /** `_inject_service_hook` up to the POST: the loop over the events. */
  method BuildForm(hook: HookSpec) returns (r: Result<map<string, string>, Error>)
    ensures r == FormData(hook)
  {
    if hook.events.None? {
      return Err(MissingKey("events"));
    }
    var events := hook.events.value;
    if hook.url.None? {
      return Err(MissingKey("url"));
    }
    var base := BaseFields(hook.url.value, hook);
    var data := base;
    var pending := events.Keys;
    assert EnabledFields(events, events.Keys - pending) == {};
    assert AllOn({}) == map[];
    while pending != {}
      invariant pending <= events.Keys
      invariant data == base + AllOn(EnabledFields(events, events.Keys - pending))
      decreases pending
    {
      var name :| name in pending;
      ghost var done := events.Keys - pending;
      assert events.Keys - (pending - {name}) == done + {name};
      EnabledFieldsStep(events, done, name);
      if events[name] {
        AllOnAdd(base, EnabledFields(events, done), EventField(name));
        data := data[EventField(name) := "on"];
      }
      pending := pending - {name};
    }
    assert events.Keys - pending == events.Keys;
    return Ok(data);
  }

  lemma PushOnlyFormFields(url: string)
    ensures IsHookForm(map["url" := url, "ctype" := "json", "token" := "", "events.push" := "on"],
      url, HookSpec(Some(url), None, None, Some(map["push" := true, "pull_request" := false])),
      map["push" := true, "pull_request" := false])
  {
    var events := map["push" := true, "pull_request" := false];
    var form := map["url" := url, "ctype" := "json", "token" := "", "events.push" := "on"];
    assert EventField("push") == "events.push";
    assert EventField("pull_request") !in form;
    assert "events.push"[|EventPrefix|..] == "push";
  }

  /** A hook with `push` on and `pull_request` off and no `ctype` or `token`
      posts `url`, `ctype=json`, an empty `token` and `events.push=on`, and
      nothing for `pull_request`. */
  lemma PushOnlyForm(url: string)
    ensures FormData(HookSpec(Some(url), None, None, Some(map["push" := true, "pull_request" := false])))
      == Ok(map["url" := url, "ctype" := "json", "token" := "", "events.push" := "on"])
  {
    var events := map["push" := true, "pull_request" := false];
    var hook := HookSpec(Some(url), None, None, Some(events));
    FormDataCorrect(hook);
    PushOnlyFormFields(url);
    HookFormUnique(FormData(hook).value, map["url" := url, "ctype" := "json", "token" := "", "events.push" := "on"], url, hook, events);
  }
}
