/**
 * Where a run's settings come from: the INI configuration file
 * (`process_config_file`) and the options of the command group (`cli`).
 * The outcome is either a run context (token, repositories, desired labels),
 * a process exit with code 3 or 7, or a crash (an uncaught exception).
 * The GitHub API is reached through two oracles: the listing of all
 * repositories visible to a token, and the label listing of one repository.
 */
module Config {
  import opened LabelSets

  /** One `key = value` line of an INI section, after parsing. */
  datatype Entry = Entry(key: string, value: string)

  /** A parsed INI file: its sections by name, each an ordered list of entries. */
  datatype Ini = Ini(sections: map<string, seq<Entry>>)

  /** A strict INI parser refuses a section that binds the same key twice. */
  predicate KeysDistinct(s: seq<Entry>)
  {
    forall i, j :: 0 <= i < j < |s| ==> s[i].key != s[j].key
  }

  predicate Parses(ini: Ini)
  {
    forall name :: name in ini.sections ==> KeysDistinct(ini.sections[name])
  }

  /** `section[key]`, or None where Python raises KeyError. Keys are case-sensitive. */
  function Get(s: seq<Entry>, key: string): (r: Option<string>)
    ensures r.Some? ==> Entry(key, r.value) in s
    ensures r.None? ==> forall e :: e in s ==> e.key != key
  {
    if s == [] then None
    else if s[0].key == key then Some(s[0].value)
    else Get(s[1..], key)
  }

  lemma {:induction false} GetMember(s: seq<Entry>, e: Entry)
    requires KeysDistinct(s) && e in s
    ensures Get(s, e.key) == Some(e.value)
  {
    if s[0] != e {
      assert e in s[1..];
      GetMember(s[1..], e);
    }
  }

  // ---------------------------------------------------------------------------
  // Boolean flags of the `repos` section

  function LowerChar(c: char): char
  {
    if 'A' <= c <= 'Z' then (c as int + 32) as char else c
  }

  /** ASCII lower-casing; no other character lowers to a letter of a flag word. */
  function Lower(s: string): (r: string)
    ensures |r| == |s|
  {
    seq(|s|, i requires 0 <= i < |s| => LowerChar(s[i]))
  }

  /** `getboolean`: the eight words it knows, in any case; None where it raises ValueError. */
  function GetBoolean(v: string): Option<bool>
  {
    var w := Lower(v);
    if w in {"1", "yes", "true", "on"} then Some(true)
    else if w in {"0", "no", "false", "off"} then Some(false)
    else None
  }

  /** The case of a flag word does not matter. */
  lemma GetBooleanIgnoresCase(v: string)
    ensures GetBoolean(Lower(v)) == GetBoolean(v)
  {
    assert Lower(Lower(v)) == Lower(v);
  }

  /**
   * The repositories switched on in the `repos` section, in file order, or
   * None when some value is not a flag word.
   */
  function EnabledRepos(s: seq<Entry>): Option<seq<string>>
  {
    if s == [] then Some([])
    else
      var init, last := s[..|s| - 1], s[|s| - 1];
      match EnabledRepos(init)
      case None => None
      case Some(r) =>
        match GetBoolean(last.value)
        case None => None
        case Some(on) => Some(if on then r + [last.key] else r)
  }

  /** The filter fails exactly when some value is not a flag word. */
  lemma {:induction false} EnabledReposFails(s: seq<Entry>)
    ensures EnabledRepos(s).None? <==> exists i :: 0 <= i < |s| && GetBoolean(s[i].value).None?
  {
    if s != [] {
      var init := s[..|s| - 1];
      EnabledReposFails(init);
      if exists i :: 0 <= i < |init| && GetBoolean(init[i].value).None? {
        var i :| 0 <= i < |init| && GetBoolean(init[i].value).None?;
        assert s[i] == init[i];
      }
      if exists i :: 0 <= i < |s| && GetBoolean(s[i].value).None? {
        var i :| 0 <= i < |s| && GetBoolean(s[i].value).None?;
        if i < |init| {
          assert init[i] == s[i];
        }
      }
    }
  }

  /** Some entry of the section names `repo` with a true flag. */
  predicate Selected(s: seq<Entry>, repo: string)
  {
    exists i :: 0 <= i < |s| && s[i].key == repo && GetBoolean(s[i].value) == Some(true)
  }

  /** A repository is selected exactly when some entry names it with a true flag. */
  lemma {:induction false} EnabledReposMembers(s: seq<Entry>, repo: string)
    requires EnabledRepos(s).Some?
    ensures repo in EnabledRepos(s).value <==> Selected(s, repo)
  {
    if s != [] {
      var init, last := s[..|s| - 1], s[|s| - 1];
      EnabledReposMembers(init, repo);
      if exists i :: 0 <= i < |init| && init[i].key == repo && GetBoolean(init[i].value) == Some(true) {
        var i :| 0 <= i < |init| && init[i].key == repo && GetBoolean(init[i].value) == Some(true);
        assert s[i] == init[i];
      }
      if exists i :: 0 <= i < |s| && s[i].key == repo && GetBoolean(s[i].value) == Some(true) {
        var i :| 0 <= i < |s| && s[i].key == repo && GetBoolean(s[i].value) == Some(true);
        if i < |init| {
          assert init[i] == s[i];
        }
      }
    }
  }

  /** Once a prefix holds a bad flag, the whole section does. */
  lemma {:induction false} EnabledReposFailsLater(s: seq<Entry>, i: nat)
    requires i <= |s| && EnabledRepos(s[..i]).None?
    ensures EnabledRepos(s).None?
    decreases |s| - i
  {
    if i < |s| {
      assert s[..i + 1][..i] == s[..i];
      EnabledReposFailsLater(s, i + 1);
    } else {
      assert s[..i] == s;
    }
  }

  /**
   * The loop of `process_config_file` over the `repos` section: append every
   * key whose flag is true; a value that is not a flag word raises.
   */
  method SelectRepos(s: seq<Entry>) returns (rep: Option<seq<string>>)
    ensures rep == EnabledRepos(s)
  {
    var acc := [];
    for i := 0 to |s|
      invariant EnabledRepos(s[..i]) == Some(acc)
    {
      assert s[..i + 1][..i] == s[..i];
      var flag := GetBoolean(s[i].value);
      if flag.None? {
        EnabledReposFailsLater(s, i + 1);
        return None;
      }
      if flag.value {
        acc := acc + [s[i].key];
      }
    }
    assert s[..|s|] == s;
    return Some(acc);
  }

  // ---------------------------------------------------------------------------
  // The configuration file

  /** Where the desired labels come from. */
  datatype LabelSource =
    | Template(repo: string)      // section `others`, key `template-repo`
    | Explicit(labels: seq<Label>) // section `labels`
    | Unset

  /** What a configuration file yields before any network call. */
  datatype Settings = Settings(token: string, repos: seq<string>, source: LabelSource)

  /** The `labels` section read into a dict, in file order. */
  function SectionLabels(s: seq<Entry>): (r: seq<Label>)
    ensures |r| == |s|
  {
    seq(|s|, i requires 0 <= i < |s| => Label(s[i].key, s[i].value))
  }

  /**
   * `process_config_file` without its template fetch: None where the source
   * raises (a duplicate key, a missing `repos` or `github` section, a missing
   * `token` or `template-repo` key, a value in `repos` that is not a flag word).
   * A section `others` wins over a section `labels`.
   */
  function ReadConfig(ini: Ini): Option<Settings>
  {
    if !Parses(ini) || "repos" !in ini.sections then None
    else
      match EnabledRepos(ini.sections["repos"])
      case None => None
      case Some(rep) =>
        if "github" !in ini.sections then None
        else
          match Get(ini.sections["github"], "token")
          case None => None
          case Some(token) =>
            if "others" in ini.sections then
              match Get(ini.sections["others"], "template-repo")
              case None => None
              case Some(t) => Some(Settings(token, rep, Template(t)))
            else if "labels" in ini.sections then
              Some(Settings(token, rep, Explicit(SectionLabels(ini.sections["labels"]))))
            else Some(Settings(token, rep, Unset))
  }

  /** What a readable configuration file yields, entry by entry. */
  lemma ReadConfigYields(ini: Ini)
    requires ReadConfig(ini).Some?
    ensures var s := ReadConfig(ini).value;
      && Entry("token", s.token) in ini.sections["github"]
      && (forall repo :: repo in s.repos <==> Selected(ini.sections["repos"], repo))
      && ("others" in ini.sections <==> s.source.Template?)
      && (s.source.Template? ==> Entry("template-repo", s.source.repo) in ini.sections["others"])
      && (s.source.Explicit? ==>
            && Distinct(s.source.labels)
            && forall e :: e in ini.sections["labels"] ==> e.key in ToMap(s.source.labels) && ToMap(s.source.labels)[e.key] == e.value)
  {
    var s := ReadConfig(ini).value;
    forall repo ensures repo in s.repos <==> Selected(ini.sections["repos"], repo) {
      EnabledReposMembers(ini.sections["repos"], repo);
    }
    if s.source.Explicit? {
      var sec := ini.sections["labels"];
      var ls := s.source.labels;
      assert KeysDistinct(sec);
      assert Distinct(ls);
      forall e | e in sec ensures e.key in ToMap(ls) && ToMap(ls)[e.key] == e.value {
        var i :| 0 <= i < |sec| && sec[i] == e;
        assert ls[i] == Label(e.key, e.value);
        ToMapOfMember(ls, ls[i]);
      }
    }
  }

  /** A configuration file fails to read exactly in the cases where the source raises. */
  lemma ReadConfigFails(ini: Ini)
    ensures ReadConfig(ini).None? <==>
      || !Parses(ini)
      || "repos" !in ini.sections
      || (exists i :: 0 <= i < |ini.sections["repos"]| && GetBoolean(ini.sections["repos"][i].value).None?)
      || "github" !in ini.sections
      || (forall e :: e in ini.sections["github"] ==> e.key != "token")
      || ("others" in ini.sections && forall e :: e in ini.sections["others"] ==> e.key != "template-repo")
  {
    if Parses(ini) && "repos" in ini.sections {
      EnabledReposFails(ini.sections["repos"]);
      if "github" in ini.sections && (exists e :: e in ini.sections["github"] && e.key == "token") {
        var e :| e in ini.sections["github"] && e.key == "token";
        GetMember(ini.sections["github"], e);
      }
      if "others" in ini.sections && (exists e :: e in ini.sections["others"] && e.key == "template-repo") {
        var e :| e in ini.sections["others"] && e.key == "template-repo";
        GetMember(ini.sections["others"], e);
      }
    }
  }

  // ---------------------------------------------------------------------------
  // The command group's options

  /** `--config`, `--token` (whose default is `$GITHUB_TOKEN` or ""), `--template-repo`, `--all-repos`. */
  datatype Options = Options(config: Option<Ini>, token: string, templateRepo: string, allRepos: bool)

  /** How `cli` ends: a run context for the subcommand, `exit(code)`, or an uncaught exception. */
  datatype Outcome = Ready(token: string, repos: seq<string>, labels: seq<Label>) | Exit(code: int) | Crash

  /** The visible repositories of a token, or None when the reply is not a list (iterating it raises). */
  type Lister = string -> Option<seq<string>>

  /** `get_labels` made with a token: a repository's labels, empty when the listing fails. */
  type Fetcher = (string, string) -> seq<Label>

  /** The settings before the options apply: the file's, or empty ones without `--config`. */
  function Loaded(o: Options): Option<Settings>
  {
    if o.config.None? then Some(Settings("", [], Unset)) else ReadConfig(o.config.value)
  }

  /** A non-empty `--token` overrides the file's token. */
  function EffectiveToken(o: Options, s: Settings): string
  {
    if |o.token| > 0 then o.token else s.token
  }

  function SourceLabels(src: LabelSource, token: string, fetch: Fetcher): seq<Label>
  {
    match src
    case Template(t) => fetch(token, t)
    case Explicit(ls) => ls
    case Unset => []
  }

  /**
   * `cli` as written: the template of the file and `--all-repos` are fetched
   * while the global token is still empty, and the listing happens before the
   * token check.
   */
  function CliAsWritten(o: Options, listAll: Lister, fetch: Fetcher): Outcome
  {
    match Loaded(o)
    case None => Crash
    case Some(s) =>
      var labels := SourceLabels(s.source, "", fetch);
      var token := EffectiveToken(o, s);
      var repos := if o.allRepos then listAll("") else Some(s.repos);
      if repos.None? then Crash
      else if |token| == 0 then Exit(3)
      else if |repos.value| == 0 then Exit(7)
      else Ready(token, repos.value, if |o.templateRepo| > 0 then fetch(token, o.templateRepo) else labels)
  }

  /**
   * `cli` with the token resolved before any request: every request uses the
   * effective token, and a missing token exits with 3 before any listing.
   */
  function Cli(o: Options, listAll: Lister, fetch: Fetcher): Outcome
  {
    match Loaded(o)
    case None => Crash
    case Some(s) =>
      var token := EffectiveToken(o, s);
      if |token| == 0 then Exit(3)
      else
        var repos := if o.allRepos then listAll(token) else Some(s.repos);
        if repos.None? then Crash
        else if |repos.value| == 0 then Exit(7)
        else Ready(token, repos.value,
                   if |o.templateRepo| > 0 then fetch(token, o.templateRepo) else SourceLabels(s.source, token, fetch))
  }

  /** The only exit codes are 3 (no token) and 7 (no repositories). */
  lemma CliExitCodes(o: Options, listAll: Lister, fetch: Fetcher)
    ensures Cli(o, listAll, fetch).Exit? ==> Cli(o, listAll, fetch).code in {3, 7}
    ensures CliAsWritten(o, listAll, fetch).Exit? ==> CliAsWritten(o, listAll, fetch).code in {3, 7}
  {
  }

  /** Exit 3 exactly when the settings load and neither `--token` nor the file gives a token. */
  lemma NoTokenExits3(o: Options, listAll: Lister, fetch: Fetcher)
    ensures Cli(o, listAll, fetch) == Exit(3) <==>
      Loaded(o).Some? && o.token == "" && Loaded(o).value.token == ""
  {
  }

  /** Exit 7 exactly when there is a token and the resolved repository list is empty. */
  lemma NoReposExits7(o: Options, listAll: Lister, fetch: Fetcher)
    ensures Cli(o, listAll, fetch) == Exit(7) <==>
      && Loaded(o).Some?
      && var token := EffectiveToken(o, Loaded(o).value);
      && token != ""
      && (if o.allRepos then listAll(token) == Some([]) else Loaded(o).value.repos == [])
  {
  }

  /**
   * A run context always carries a token and a repository; the token is
   * `--token` when given, else the file's; `--all-repos` replaces the file's
   * repositories; `--template-repo` replaces the file's labels.
   */
  lemma ReadyContext(o: Options, listAll: Lister, fetch: Fetcher)
    requires Cli(o, listAll, fetch).Ready?
    ensures var r := Cli(o, listAll, fetch);
      && r.token != "" && r.repos != []
      && (o.token != "" ==> r.token == o.token)
      && (o.token == "" ==> o.config.Some? && r.token == ReadConfig(o.config.value).value.token)
      && (o.allRepos ==> listAll(r.token) == Some(r.repos))
      && (!o.allRepos ==> o.config.Some? && r.repos == ReadConfig(o.config.value).value.repos)
      && (o.templateRepo != "" ==> r.labels == fetch(r.token, o.templateRepo))
  {
  }

  /**
   * As written, exit 3 needs the same missing token, and also a listing that
   * did not crash first when `--all-repos` is given.
   */
  lemma AsWrittenExit3(o: Options, listAll: Lister, fetch: Fetcher)
    ensures CliAsWritten(o, listAll, fetch) == Exit(3) <==>
      && Loaded(o).Some? && o.token == "" && Loaded(o).value.token == ""
      && (o.allRepos ==> listAll("").Some?)
  {
  }

  /** As written, exit 7 follows the listing of the empty token under `--all-repos`. */
  lemma AsWrittenExit7(o: Options, listAll: Lister, fetch: Fetcher)
    ensures CliAsWritten(o, listAll, fetch) == Exit(7) <==>
      && Loaded(o).Some?
      && EffectiveToken(o, Loaded(o).value) != ""
      && (if o.allRepos then listAll("") == Some([]) else Loaded(o).value.repos == [])
  {
  }

  /**
   * As written, a run context carries the resolved token, but its repositories
   * under `--all-repos`, and a template named in the file, come from requests
   * made with the empty token.
   */
  lemma AsWrittenReady(o: Options, listAll: Lister, fetch: Fetcher)
    requires CliAsWritten(o, listAll, fetch).Ready?
    ensures var r := CliAsWritten(o, listAll, fetch);
      && r.token != "" && r.repos != []
      && (o.token != "" ==> r.token == o.token)
      && (o.token == "" ==> o.config.Some? && r.token == ReadConfig(o.config.value).value.token)
      && (o.allRepos ==> listAll("") == Some(r.repos))
      && (!o.allRepos ==> o.config.Some? && r.repos == ReadConfig(o.config.value).value.repos)
      && (o.templateRepo != "" ==> r.labels == fetch(r.token, o.templateRepo))
      && (o.templateRepo == "" && Loaded(o).value.source.Template? ==>
            r.labels == fetch("", Loaded(o).value.source.repo))
  {
  }

  /** The corrected `cli` consults the API only with the effective token. */
  lemma CliUsesEffectiveToken(o: Options, l1: Lister, f1: Fetcher, l2: Lister, f2: Fetcher)
    requires Loaded(o).Some?
    requires var t := EffectiveToken(o, Loaded(o).value);
      l1(t) == l2(t) && forall r :: f1(t, r) == f2(t, r)
    ensures Cli(o, l1, f1) == Cli(o, l2, f2)
  {
  }

  /** With a distinct label listing, a run context's labels are a dict. */
  lemma ReadyLabelsDistinct(o: Options, listAll: Lister, fetch: Fetcher)
    requires forall t, r :: Distinct(fetch(t, r))
    requires Cli(o, listAll, fetch).Ready?
    ensures Distinct(Cli(o, listAll, fetch).labels)
  {
    var s := Loaded(o).value;
    if o.templateRepo == "" && s.source.Explicit? {
      ReadConfigYields(o.config.value);
    }
  }

  /** As written, `--all-repos` asks for the listing with the empty token whatever token is given. */
  lemma AsWrittenListsWithEmptyToken(o: Options, l1: Lister, l2: Lister, fetch: Fetcher)
    requires l1("") == l2("")
    ensures CliAsWritten(o, l1, fetch) == CliAsWritten(o, l2, fetch)
  {
  }

  /**
   * A token given with `--token` and `--all-repos`, where the API refuses the
   * listing to the empty token: the code as written crashes, the corrected
   * resolution lists the token's repositories.
   */
  lemma AllReposCounterexample()
    ensures var o := Options(None, "abc", "", true);
      var listAll: Lister := t => if t == "" then None else Some(["octo/site"]);
      var fetch: Fetcher := (t, r) => [];
      && CliAsWritten(o, listAll, fetch) == Crash
      && Cli(o, listAll, fetch) == Ready("abc", ["octo/site"], [])
  {
  }

  /** Without `--all-repos` and without a template in the file, the two resolutions agree. */
  lemma CorrectionKeepsTheRest(o: Options, listAll: Lister, fetch: Fetcher)
    requires !o.allRepos
    requires Loaded(o).Some? ==> !Loaded(o).value.source.Template?
    ensures CliAsWritten(o, listAll, fetch) == Cli(o, listAll, fetch)
  {
  }
}
