/** BasePage: the services every Gitblit page shares. Modelled here: the cached logger-level
    flags, the page title, the last-modified clamp and the project listing filter. */
module BasePage {
  import opened Wrappers
  import opened Models
  import opened Text
  import opened Ordering

  // ---------------------------------------------------------------------------------------------
  // Logger-level flags

  /** Java's byte. */
  type Byte = b: int | -128 <= b < 128

  /** The three states of a level flag. */
  const UNKNOWN: Byte := 0
  const DISABLED: Byte := 1
  const ENABLED: Byte := 2

  datatype Level = Trace | Debug | Info | Warn | Error

  /** What the logger handed out by LoggerFactory for the page class says about each level. */
  datatype LoggerConfig = LoggerConfig(trace: bool, debug: bool, info: bool, warn: bool, error: bool)
  {
    predicate Enabled(level: Level)
    {
      match level
      case Trace => trace
      case Debug => debug
      case Info => info
      case Warn => warn
      case Error => error
    }
  }

  /** The flag value logger() stores for a level: never UNKNOWN, and ENABLED exactly when the level is on. */
  function FlagFor(enabled: bool): (flag: Byte)
    ensures flag != UNKNOWN
    ensures enabled ==> flag == ENABLED
    ensures !enabled ==> flag == DISABLED
  {
    if enabled then ENABLED else DISABLED
  }

  /** The logging part of a page: the lazily obtained logger and one cached flag per level. */
  class Page {
    /** The logger LoggerFactory.getLogger(getClass()) returns, described by its levels. */
    const loggerFactory: LoggerConfig
    /** The `logger` field: null until logger() is first called. */
    var logger: Option<LoggerConfig>
    var isTraceEnabled: Byte
    var isDebugEnabled: Byte
    var isInfoEnabled: Byte
    var isWarnEnabled: Byte
    var isErrorEnabled: Byte

    function Flag(level: Level): Byte
      reads this
    {
      match level
      case Trace => isTraceEnabled
      case Debug => isDebugEnabled
      case Info => isInfoEnabled
      case Warn => isWarnEnabled
      case Error => isErrorEnabled
    }

    /** Every flag is UNKNOWN until the logger is obtained, and mirrors the logger afterwards. */
    ghost predicate Valid()
      reads this
    {
      && (logger.None? ==> forall level :: Flag(level) == UNKNOWN)
      && (logger.Some? ==> logger.value == loggerFactory
                           && forall level :: Flag(level) == FlagFor(loggerFactory.Enabled(level)))
    }

    constructor (loggerFactory: LoggerConfig)
      ensures Valid()
      ensures this.loggerFactory == loggerFactory && logger == None
    {
      this.loggerFactory := loggerFactory;
      logger := None;
      isTraceEnabled, isDebugEnabled, isInfoEnabled, isWarnEnabled, isErrorEnabled := 0, 0, 0, 0, 0;
    }

    /** logger(): obtains the logger on the first call and records every level's flag;
        later calls change nothing. */
    method Logger() returns (l: LoggerConfig)
      requires Valid()
      modifies this
      ensures Valid()
      ensures logger == Some(loggerFactory) && l == loggerFactory
      ensures forall level :: Flag(level) == FlagFor(loggerFactory.Enabled(level))
      ensures old(logger).Some? ==> unchanged(this)
    {
      if logger.None? {
        logger := Some(loggerFactory);
        isTraceEnabled := FlagFor(loggerFactory.trace);
        isDebugEnabled := FlagFor(loggerFactory.debug);
        isInfoEnabled := FlagFor(loggerFactory.info);
        isWarnEnabled := FlagFor(loggerFactory.warn);
        isErrorEnabled := FlagFor(loggerFactory.error);
      }
      l := logger.value;
    }

    /** isTraceEnabled(), isDebugEnabled(), ...: answers from the cached flag, and on an UNKNOWN
        flag obtains the logger first and asks again. */
    method IsEnabled(level: Level) returns (enabled: bool)
      requires Valid()
      modifies this
      decreases if Flag(level) == UNKNOWN then 1 else 0
      ensures Valid()
      ensures logger == Some(loggerFactory)
      ensures enabled == loggerFactory.Enabled(level)
      ensures enabled <==> Flag(level) == ENABLED
      ensures old(logger).Some? ==> unchanged(this)
    {
      var flag := Flag(level);
      if flag == DISABLED {
        enabled := false;
      } else if flag == ENABLED {
        enabled := true;
      } else {
        var _ := Logger();
        enabled := IsEnabled(level);
      }
    }
  }

  // ---------------------------------------------------------------------------------------------
  // Last-modified header

  const MinuteMillis := 60 * 1000

  /** The last-modified date a page reports: never earlier than the server's boot date. */
  function NotBeforeBoot(when: int, bootDate: int): (date: int)
    ensures date >= when && date >= bootDate
    ensures date == when || date == bootDate
  {
    if when < bootDate then bootDate else when
  }

  /** The two headers setLastModified(Date) writes on the page's response. */
  class WebResponse {
    var lastModifiedTime: Option<int>
    var expires: Option<int>

    constructor ()
      ensures lastModifiedTime == None && expires == None
    {
      lastModifiedTime, expires := None, None;
    }
  }

  /** setLastModified(Date): nothing for a null date; otherwise the clamped date becomes the
      last-modified time and the page expires pageCacheExpires minutes after now. */
  method SetLastModified(response: WebResponse, when: Option<int>, bootDate: int,
                         pageCacheExpires: int, now: int)
    modifies response
    ensures when.None? ==> unchanged(response)
    ensures when.Some? ==> response.lastModifiedTime == Some(NotBeforeBoot(when.value, bootDate))
    ensures when.Some? ==> response.expires == Some(now + pageCacheExpires * MinuteMillis)
  {
    if when.None? {
      return;
    }
    var date := when.value;
    if date < bootDate {
      date := bootDate;
    }
    response.lastModifiedTime := Some(date);
    response.expires := Some(now + pageCacheExpires * MinuteMillis);
  }

  // ---------------------------------------------------------------------------------------------
  // Page title

  /** Constants.NAME. */
  const NAME := "Gitblit"

  /** The web.siteName setting (None when it is not set), falling back to NAME when it is empty. */
  function SiteName(configured: Option<string>): (site: string)
    ensures !Blank(site)
    ensures !IsEmpty(configured) ==> site == configured.value
    ensures IsEmpty(configured) ==> site == NAME
  {
    assert !Blank(NAME) by { assert !IsTrimmed(NAME[0]); }
    var siteName := if configured.Some? then configured.value else NAME;
    if IsEmpty(Some(siteName)) then NAME else siteName
  }

  /** getPageTitle: "<repository> - <site>" for a repository name with some non-blank character,
      the site name alone otherwise. */
  function PageTitle(repositoryName: Option<string>, configuredSiteName: Option<string>): (title: string)
    ensures (repositoryName.Some? && !Blank(repositoryName.value)) ==>
              title == repositoryName.value + " - " + SiteName(configuredSiteName)
    ensures (repositoryName.None? || Blank(repositoryName.value)) ==> title == SiteName(configuredSiteName)
  {
    var siteName := SiteName(configuredSiteName);
    if repositoryName.Some? && |Trim(repositoryName.value)| > 0 then
      repositoryName.value + " - " + siteName
    else
      siteName
  }

  /** Every title names the site at its end and is never blank. */
  lemma TitleEndsWithSiteName(repositoryName: Option<string>, configuredSiteName: Option<string>)
    ensures var title := PageTitle(repositoryName, configuredSiteName);
            var site := SiteName(configuredSiteName);
            |site| <= |title| && title[|title| - |site|..] == site && !Blank(title)
  {
    var site := SiteName(configuredSiteName);
    var prefix := if repositoryName.Some? && !Blank(repositoryName.value) then repositoryName.value + " - " else [];
    assert PageTitle(repositoryName, configuredSiteName) == prefix + site;
    NotBlankSuffix(prefix, site);
  }

  /** Whatever precedes a non-blank string, the whole ends with it and is not blank. */
  lemma NotBlankSuffix(prefix: string, s: string)
    requires !Blank(s)
    ensures (prefix + s)[|prefix + s| - |s|..] == s && !Blank(prefix + s)
  {
    var whole := prefix + s;
    assert whole[|prefix|..] == s;
    var k :| 0 <= k < |s| && !IsTrimmed(s[k]);
    assert whole[|prefix| + k] == s[k];
  }

  // ---------------------------------------------------------------------------------------------
  // Project listing filter (getProjects)

  const DayMillis := 24 * 60 * 60 * 1000

  /** The page parameters getProjects reads: "r" (a regular expression), "team" (a comma-separated
      list of team names) and "db" (days back, 0 when absent). */
  datatype PageParameters = PageParameters(regex: Option<string>, team: Option<string>, daysBack: int)

  /** Pattern.compile throws on a malformed regular expression. */
  datatype FilterError = InvalidPattern(regex: string)

  /** The collaborators getProjects calls but whose code is not part of this model. */
  datatype Collaborators = Collaborators(
    /** Pattern.compile: the compiled pattern's matcher(name).find(), or None when it does not compile. */
    compile: string -> Option<string -> bool>,
    /** StringUtils.getStringsFromValue(value, ","). */
    getStringsFromValue: string -> seq<string>,
    /** app().users().getTeamModel(name): None for an unknown team. */
    getTeamModel: string -> Option<Team>,
    /** TeamModel.hasRepositoryPermission(repositoryName). */
    hasRepositoryPermission: (Team, string) -> bool,
    /** The natural order of ProjectModel (compareTo <= 0). */
    naturalOrder: (Project, Project) -> bool)

  /** The teams the given names resolve to, in the order of the names; unknown names are skipped. */
  function ResolveTeams(names: seq<string>, getTeamModel: string -> Option<Team>): (teams: seq<Team>)
    ensures forall t :: t in teams <==> exists n :: n in names && getTeamModel(n) == Some(t)
  {
    if names == [] then []
    else
      var last := names[|names| - 1];
      var init := names[..|names| - 1];
      assert names == init + [last];
      ResolveTeams(init, getTeamModel)
        + match getTeamModel(last) case Some(t) => [t] case None => []
  }

  /** Some repository among `repositories` is permitted to some team among `teams`. */
  ghost predicate PermittedAmong(repositories: seq<string>, teams: seq<Team>,
                                 hasRepositoryPermission: (Team, string) -> bool)
  {
    exists r, t :: r in repositories && t in teams && hasRepositoryPermission(t, r)
  }

  /** The projects the name filter accepts: those whose name contains a match of the pattern. */
  ghost function NameCandidates(regex: Option<string>, available: seq<Project>,
                                compile: string -> Option<string -> bool>): Result<set<Project>, FilterError>
  {
    if IsEmpty(regex) then Ok({})
    else match compile(regex.value)
      case None => Err(InvalidPattern(regex.value))
      case Some(find) => Ok(set x | x in available && find(x.name))
  }

  /** The projects the team filter accepts: those with a repository permitted to a named, known team. */
  ghost function TeamCandidates(team: Option<string>, available: seq<Project>, env: Collaborators): set<Project>
  {
    if IsEmpty(team) then {}
    else
      var teams := ResolveTeams(env.getStringsFromValue(team.value), env.getTeamModel);
      set x | x in available && PermittedAmong(x.repositories, teams, env.hasRepositoryPermission)
  }

  /** The candidates before the time filter: the union of what the supplied filters accept, or every
      available project when no filter is supplied. */
  ghost function Candidates(params: PageParameters, available: seq<Project>, env: Collaborators)
    : Result<set<Project>, FilterError>
  {
    match NameCandidates(params.regex, available, env.compile)
    case Err(e) => Err(e)
    case Ok(byName) =>
      if IsEmpty(params.regex) && IsEmpty(params.team) then Ok(set x | x in available)
      else Ok(byName + TeamCandidates(params.team, available, env))
  }

  /** The days-back value the time filter uses: clamped to a positive configured maximum. */
  function EffectiveDaysBack(daysBack: int, maxDaysBack: int): (days: int)
    requires daysBack > 0
    ensures 0 < days <= daysBack
    ensures maxDaysBack > 0 ==> days <= maxDaysBack && (days == daysBack || days == maxDaysBack)
    ensures maxDaysBack <= 0 ==> days == daysBack
  {
    if maxDaysBack > 0 && daysBack > maxDaysBack then maxDaysBack else daysBack
  }

  /** Midnight today minus `days` days. */
  function Threshold(startOfToday: int, days: int): int
  {
    startOfToday - days * DayMillis
  }

  /** The projects changed strictly after the threshold. */
  ghost function Recent(models: set<Project>, threshold: int): set<Project>
  {
    set x | x in models && x.lastChange > threshold
  }

  /** The set of projects getProjects lists for the given parameters. */
  ghost function Selected(params: PageParameters, available: seq<Project>, env: Collaborators,
                          maxDaysBack: int, startOfToday: int): Result<set<Project>, FilterError>
  {
    match Candidates(params, available, env)
    case Err(e) => Err(e)
    case Ok(models) =>
      if params.daysBack > 0 then
        Ok(Recent(models, Threshold(startOfToday, EffectiveDaysBack(params.daysBack, maxDaysBack))))
      else Ok(models)
  }

  /** The name-filter loop: every available project whose name contains a match. */
  method MatchByName(available: seq<Project>, find: string -> bool) returns (models: set<Project>)
    ensures models == set x | x in available && find(x.name)
  {
    models := {};
    for i := 0 to |available|
      invariant models == set x | x in available[..i] && find(x.name)
    {
      if find(available[i].name) {
        models := models + {available[i]};
      }
      assert available[..i + 1] == available[..i] + [available[i]];
    }
    assert available[..|available|] == available;
  }

  /** The team-name loop: the known teams among the names, in order. */
  method ResolveTeamModels(names: seq<string>, getTeamModel: string -> Option<Team>) returns (teamModels: seq<Team>)
    ensures teamModels == ResolveTeams(names, getTeamModel)
  {
    teamModels := [];
    for i := 0 to |names|
      invariant teamModels == ResolveTeams(names[..i], getTeamModel)
    {
      var teamModel := getTeamModel(names[i]);
      if teamModel.Some? {
        teamModels := teamModels + [teamModel.value];
      }
      assert names[..i + 1][..i] == names[..i];
    }
    assert names[..|names|] == names;
  }

  /** The brute-force team loop: adds every available project with a repository some team is permitted. */
  method AddPermitted(models: set<Project>, available: seq<Project>, teamModels: seq<Team>,
                      hasRepositoryPermission: (Team, string) -> bool) returns (result: set<Project>)
    ensures result == models + set x | x in available
                                       && PermittedAmong(x.repositories, teamModels, hasRepositoryPermission)
  {
    result := models;
    for i := 0 to |available|
      invariant result == models + set x | x in available[..i]
                                           && PermittedAmong(x.repositories, teamModels, hasRepositoryPermission)
    {
      var projectModel := available[i];
      ghost var done := result;
      for j := 0 to |projectModel.repositories|
        invariant result == done + if PermittedAmong(projectModel.repositories[..j], teamModels,
                                                     hasRepositoryPermission)
                                   then {projectModel} else {}
      {
        var repositoryName := projectModel.repositories[j];
        for k := 0 to |teamModels|
          invariant result == done + if PermittedAmong(projectModel.repositories[..j], teamModels,
                                                       hasRepositoryPermission)
                                        || PermittedAmong([repositoryName], teamModels[..k],
                                                          hasRepositoryPermission)
                                     then {projectModel} else {}
        {
          if hasRepositoryPermission(teamModels[k], repositoryName) {
            result := result + {projectModel};
          }
        }
      }
      assert available[..i + 1] == available[..i] + [available[i]];
    }
    assert available[..|available|] == available;
  }

  /** The time-filter loop: keeps the projects changed strictly after the threshold. */
  method KeepRecent(models: set<Project>, threshold: int) returns (timeFiltered: set<Project>)
    ensures timeFiltered == Recent(models, threshold)
  {
    timeFiltered := {};
    var rest := models;
    while rest != {}
      invariant rest <= models
      invariant timeFiltered == Recent(models - rest, threshold)
      decreases |rest|
    {
      var model :| model in rest;
      if model.lastChange > threshold {
        timeFiltered := timeFiltered + {model};
      }
      rest := rest - {model};
    }
  }

  /** new ArrayList(models) followed by Collections.sort: each project once, in natural order. */
  method SortedList(models: set<Project>, naturalOrder: (Project, Project) -> bool) returns (list: seq<Project>)
    requires TotalPreorder(naturalOrder)
    ensures multiset(list) == multiset(models)
    ensures Sorted(list, naturalOrder)
  {
    list := [];
    var rest := models;
    while rest != {}
      invariant rest <= models
      invariant multiset(list) + multiset(rest) == multiset(models)
      decreases |rest|
    {
      var model :| model in rest;
      list := list + [model];
      assert multiset(rest) == multiset(rest - {model}) + multiset{model};
      rest := rest - {model};
    }
    list := SortBy(list, naturalOrder);
  }

  /** The regex and team steps of getProjects, up to the point where the time filter starts. */
  method FilterCandidates(p: PageParameters, available: seq<Project>, env: Collaborators)
    returns (r: Result<set<Project>, FilterError>)
    ensures r == Candidates(p, available, env)
  {
    var hasParameter := false;
    var models: set<Project> := {};

    if !IsEmpty(p.regex) {
      hasParameter := true;
      var pattern := env.compile(p.regex.value);
      if pattern.None? {
        return Err(InvalidPattern(p.regex.value));
      }
      models := MatchByName(available, pattern.value);
    }
    assert NameCandidates(p.regex, available, env.compile) == Ok(models);
    ghost var byName := models;

    if !IsEmpty(p.team) {
      hasParameter := true;
      var teams := env.getStringsFromValue(p.team.value);
      var teamModels := ResolveTeamModels(teams, env.getTeamModel);
      models := AddPermitted(models, available, teamModels, env.hasRepositoryPermission);
    }
    assert models == byName + TeamCandidates(p.team, available, env);

    if !hasParameter {
      assert models == {};
      models := models + set x | x in available;
      assert models == set x | x in available;
    } else {
      assert !(IsEmpty(p.regex) && IsEmpty(p.team));
    }
    return Ok(models);
  }

  /** getProjects: without parameters, the available projects as they are; otherwise the projects
      Selected describes, each once, sorted by their natural order. */
  method GetProjects(params: Option<PageParameters>, available: seq<Project>, env: Collaborators,
                     maxDaysBack: int, startOfToday: int)
    returns (r: Result<seq<Project>, FilterError>)
    requires TotalPreorder(env.naturalOrder)
    ensures params.None? ==> r == Ok(available)
    ensures params.Some? ==> r.Ok? == Selected(params.value, available, env, maxDaysBack, startOfToday).Ok?
    ensures params.Some? && r.Err? ==>
              r.error == Selected(params.value, available, env, maxDaysBack, startOfToday).error
    ensures params.Some? && r.Ok? ==>
              && multiset(r.value) == multiset(Selected(params.value, available, env, maxDaysBack, startOfToday).value)
              && Sorted(r.value, env.naturalOrder)
  {
    if params.None? {
      return Ok(available);
    }
    var p := params.value;
    var candidates := FilterCandidates(p, available, env);
    if candidates.Err? {
      return Err(candidates.error);
    }
    var models := candidates.value;

    // time-filter the list
    if p.daysBack > 0 {
      var daysBack := p.daysBack;
      if maxDaysBack > 0 && daysBack > maxDaysBack {
        daysBack := maxDaysBack;
      }
      models := KeepRecent(models, startOfToday - daysBack * DayMillis);
    }
    assert Selected(p, available, env, maxDaysBack, startOfToday) == Ok(models);

    var list := SortedList(models, env.naturalOrder);
    return Ok(list);
  }

  // ---------------------------------------------------------------------------------------------
  // What getProjects promises

  /** With neither a pattern nor a team, every available project is a candidate. */
  lemma WithoutFiltersEveryProjectIsCandidate(p: PageParameters, available: seq<Project>, env: Collaborators)
    requires IsEmpty(p.regex) && IsEmpty(p.team)
    ensures Candidates(p, available, env) == Ok(set x | x in available)
  {
  }

  /** A malformed pattern is reported, whatever the other parameters; otherwise the filter succeeds. */
  lemma OnlyMalformedPatternsFail(p: PageParameters, available: seq<Project>, env: Collaborators,
                                  maxDaysBack: int, startOfToday: int)
    ensures Selected(p, available, env, maxDaysBack, startOfToday).Err?
        <==> !IsEmpty(p.regex) && env.compile(p.regex.value).None?
    ensures Selected(p, available, env, maxDaysBack, startOfToday).Err? ==>
              Selected(p, available, env, maxDaysBack, startOfToday).error == InvalidPattern(p.regex.value)
  {
  }

  /** Some repository among `repositories` is permitted to the team one of `names` resolves to. */
  ghost predicate PermittedToNamedTeam(repositories: seq<string>, names: seq<string>, env: Collaborators)
  {
    exists r, n :: r in repositories && n in names && env.getTeamModel(n).Some?
                   && env.hasRepositoryPermission(env.getTeamModel(n).value, r)
  }

  /** Resolving the names first and then asking the teams is asking the teams the names resolve to. */
  lemma ResolvedTeamsPermit(repositories: seq<string>, names: seq<string>, env: Collaborators)
    ensures PermittedAmong(repositories, ResolveTeams(names, env.getTeamModel), env.hasRepositoryPermission)
        <==> PermittedToNamedTeam(repositories, names, env)
  {
    var teams := ResolveTeams(names, env.getTeamModel);
    if PermittedAmong(repositories, teams, env.hasRepositoryPermission) {
      var r, t :| r in repositories && t in teams && env.hasRepositoryPermission(t, r);
      var n :| n in names && env.getTeamModel(n) == Some(t);
    }
    if PermittedToNamedTeam(repositories, names, env) {
      var r, n :| r in repositories && n in names && env.getTeamModel(n).Some?
                  && env.hasRepositoryPermission(env.getTeamModel(n).value, r);
      assert env.getTeamModel(n).value in teams;
    }
  }

  /** With a pattern or a team, a project is a candidate exactly when it is available and some supplied
      filter accepts it: its name contains a match, or one of its repositories is permitted to a team
      that one of the listed names resolves to (unknown names resolve to no team). */
  lemma CandidatesAreWhatSomeFilterAccepts(p: PageParameters, available: seq<Project>, env: Collaborators, x: Project)
    requires !(IsEmpty(p.regex) && IsEmpty(p.team))
    requires Candidates(p, available, env).Ok?
    ensures x in Candidates(p, available, env).value <==>
              x in available
              && (|| (!IsEmpty(p.regex) && env.compile(p.regex.value).value(x.name))
                  || (!IsEmpty(p.team)
                      && PermittedToNamedTeam(x.repositories, env.getStringsFromValue(p.team.value), env)))
  {
    var byName := NameCandidates(p.regex, available, env.compile).value;
    var byTeam := TeamCandidates(p.team, available, env);
    assert Candidates(p, available, env).value == byName + byTeam;
    assert x in byName <==> x in available && !IsEmpty(p.regex) && env.compile(p.regex.value).value(x.name);
    if !IsEmpty(p.team) {
      ResolvedTeamsPermit(x.repositories, env.getStringsFromValue(p.team.value), env);
    }
  }

  /** Team names that all fail to resolve select nothing, and raise no error. */
  lemma UnknownTeamsSelectNothing(p: PageParameters, available: seq<Project>, env: Collaborators,
                                  maxDaysBack: int, startOfToday: int)
    requires IsEmpty(p.regex) && !IsEmpty(p.team)
    requires forall n :: n in env.getStringsFromValue(p.team.value) ==> env.getTeamModel(n).None?
    ensures Selected(p, available, env, maxDaysBack, startOfToday) == Ok({})
  {
    var teams := ResolveTeams(env.getStringsFromValue(p.team.value), env.getTeamModel);
    assert forall t :: t !in teams;
    assert TeamCandidates(p.team, available, env) == {};
    var byName := NameCandidates(p.regex, available, env.compile);
    assert byName == Ok({});
    assert !(IsEmpty(p.regex) && IsEmpty(p.team));
    assert Candidates(p, available, env) == Ok(byName.value + TeamCandidates(p.team, available, env));
    assert Candidates(p, available, env).value == {};
    if p.daysBack > 0 {
      var threshold := Threshold(startOfToday, EffectiveDaysBack(p.daysBack, maxDaysBack));
      assert Recent({}, threshold) == {};
    }
  }

  /** The name and team filters combine by union: listing with both is listing with each and
      merging, for any days-back value. */
  lemma FiltersCombineByUnion(p: PageParameters, available: seq<Project>, env: Collaborators,
                              maxDaysBack: int, startOfToday: int)
    requires !IsEmpty(p.regex) && !IsEmpty(p.team)
    requires Selected(p, available, env, maxDaysBack, startOfToday).Ok?
    ensures Selected(p.(team := None), available, env, maxDaysBack, startOfToday).Ok?
    ensures Selected(p.(regex := None), available, env, maxDaysBack, startOfToday).Ok?
    ensures Selected(p, available, env, maxDaysBack, startOfToday).value
         == Selected(p.(team := None), available, env, maxDaysBack, startOfToday).value
          + Selected(p.(regex := None), available, env, maxDaysBack, startOfToday).value
  {
    var nameOnly, teamOnly := p.(team := None), p.(regex := None);
    assert IsEmpty(nameOnly.team) && IsEmpty(teamOnly.regex);
    assert NameCandidates(p.regex, available, env.compile).Ok?;
    var byName := NameCandidates(p.regex, available, env.compile).value;
    var byTeam := TeamCandidates(p.team, available, env);
    assert TeamCandidates(nameOnly.team, available, env) == {} && byName + {} == byName;
    assert Candidates(nameOnly, available, env) == Ok(byName);
    assert NameCandidates(teamOnly.regex, available, env.compile) == Ok({}) && {} + byTeam == byTeam;
    assert Candidates(teamOnly, available, env) == Ok(byTeam);
    assert Candidates(p, available, env) == Ok(byName + byTeam);
    if p.daysBack > 0 {
      var threshold := Threshold(startOfToday, EffectiveDaysBack(p.daysBack, maxDaysBack));
      assert Recent(byName + byTeam, threshold) == Recent(byName, threshold) + Recent(byTeam, threshold);
    }
  }

  /** The time filter only removes candidates: without it the candidates are listed as they are, and
      with it exactly the candidates changed strictly after midnight today minus the effective
      days-back value are kept. Everything listed is available. */
  lemma TimeFilterNarrows(p: PageParameters, available: seq<Project>, env: Collaborators,
                          maxDaysBack: int, startOfToday: int)
    requires Selected(p, available, env, maxDaysBack, startOfToday).Ok?
    ensures Candidates(p, available, env).Ok?
    ensures Selected(p, available, env, maxDaysBack, startOfToday).value <= Candidates(p, available, env).value
    ensures Selected(p, available, env, maxDaysBack, startOfToday).value <= set x | x in available
    ensures p.daysBack <= 0 ==>
              Selected(p, available, env, maxDaysBack, startOfToday) == Candidates(p, available, env)
    ensures p.daysBack > 0 ==>
              forall x :: x in Selected(p, available, env, maxDaysBack, startOfToday).value
                <==> x in Candidates(p, available, env).value
                     && x.lastChange > startOfToday - EffectiveDaysBack(p.daysBack, maxDaysBack) * DayMillis
  {
    var selected := Selected(p, available, env, maxDaysBack, startOfToday).value;
    var candidates := Candidates(p, available, env).value;
    forall x | x in candidates
      ensures x in available
    {
      if !(IsEmpty(p.regex) && IsEmpty(p.team)) {
        CandidatesAreWhatSomeFilterAccepts(p, available, env, x);
      }
    }
  }

  /** A wider positive window lists at least as much (a window of 0 or less disables the filter). */
  lemma WiderWindowListsMore(p: PageParameters, available: seq<Project>, env: Collaborators,
                             maxDaysBack: int, startOfToday: int, wider: int)
    requires 0 < p.daysBack <= wider
    requires Selected(p, available, env, maxDaysBack, startOfToday).Ok?
    ensures Selected(p.(daysBack := wider), available, env, maxDaysBack, startOfToday).Ok?
    ensures Selected(p, available, env, maxDaysBack, startOfToday).value
         <= Selected(p.(daysBack := wider), available, env, maxDaysBack, startOfToday).value
  {
    var days := EffectiveDaysBack(p.daysBack, maxDaysBack);
    var widerDays := EffectiveDaysBack(wider, maxDaysBack);
    assert days <= widerDays;
    assert Threshold(startOfToday, widerDays) <= Threshold(startOfToday, days);
    assert Candidates(p.(daysBack := wider), available, env) == Candidates(p, available, env);
  }

  /** A project changed today is listed with a five-day window, one changed ten days ago is not. */
  lemma FiveDayWindowExample(env: Collaborators, startOfToday: int)
    ensures var alpha := Project("alpha", "alpha", ["alpha/a.git"], startOfToday, false);
            var beta := Project("beta", "beta", ["beta/b.git"], startOfToday - 10 * DayMillis, false);
            Selected(PageParameters(None, None, 5), [alpha, beta], env, 30, startOfToday) == Ok({alpha})
  {
    var alpha := Project("alpha", "alpha", ["alpha/a.git"], startOfToday, false);
    var beta := Project("beta", "beta", ["beta/b.git"], startOfToday - 10 * DayMillis, false);
    var candidates := set x | x in [alpha, beta];
    assert candidates == {alpha, beta};
    assert Candidates(PageParameters(None, None, 5), [alpha, beta], env) == Ok(candidates);
    assert Threshold(startOfToday, EffectiveDaysBack(5, 30)) == startOfToday - 5 * DayMillis;
    assert Recent(candidates, startOfToday - 5 * DayMillis) == {alpha};
  }

  /** When the natural order ties only projects with the same key (their name, say) and no two
      selected projects share a key, every sorted list of the selected projects is the same list:
      the listing does not depend on the iteration order of the HashSet it is copied from. */
  lemma ListingIsUniqueForDistinctKeys(p: PageParameters, available: seq<Project>, env: Collaborators,
                                       maxDaysBack: int, startOfToday: int, key: Project -> string,
                                       listing1: seq<Project>, listing2: seq<Project>)
    requires TotalPreorder(env.naturalOrder)
    requires forall x, y :: env.naturalOrder(x, y) && env.naturalOrder(y, x) ==> key(x) == key(y)
    requires Selected(p, available, env, maxDaysBack, startOfToday).Ok?
    requires forall x, y :: (&& x in Selected(p, available, env, maxDaysBack, startOfToday).value
                             && y in Selected(p, available, env, maxDaysBack, startOfToday).value
                             && key(x) == key(y)) ==> x == y
    requires multiset(listing1) == multiset(Selected(p, available, env, maxDaysBack, startOfToday).value)
    requires multiset(listing2) == multiset(Selected(p, available, env, maxDaysBack, startOfToday).value)
    requires Sorted(listing1, env.naturalOrder) && Sorted(listing2, env.naturalOrder)
    ensures listing1 == listing2
  {
    var selected := Selected(p, available, env, maxDaysBack, startOfToday).value;
    forall x, y | x in multiset(listing1) && y in multiset(listing1) && env.naturalOrder(x, y) && env.naturalOrder(y, x)
      ensures x == y
    {
      assert x in selected && y in selected;
    }
    assert NoTiesAmong(multiset(listing1), env.naturalOrder);
    SortedArrangementIsUnique(listing1, listing2, env.naturalOrder);
  }
}
