/** ProjectPage: the page of one project. Modelled here: the lazily filled project list, the
    case-insensitive project lookup, the "projects" and "filters" drop-down menus, the days-back
    default and the reverse-chronological order of the repository list. */
module ProjectPage {
  import opened Wrappers
  import opened Models
  import opened Text
  import opened Ordering

  // ---------------------------------------------------------------------------------------------
  // Menus

  /** PageRegistration.DropDownMenuItem: a labelled link carrying one page parameter, or a divider. */
  datatype MenuItem = MenuItem(caption: string, parameter: Option<string>, value: Option<string>) | Divider

  /** The menu entry linking to a project page. */
  function ProjectItem(project: Project): MenuItem
  {
    MenuItem(project.displayName, Some("p"), Some(project.name))
  }

  /** The entries of a project list, one per project, in the same order. */
  function ProjectItems(projects: seq<Project>): seq<MenuItem>
  {
    seq(|projects|, i requires 0 <= i < |projects| => ProjectItem(projects[i]))
  }

  /** The trailing "all projects" entry of a long projects menu. */
  const AllProjects := MenuItem("all projects", None, None)

  /** At most this many projects are listed in the projects menu. */
  const MaxProjects := 15

  /** The comparator of getProjectsMenu and setup: the more recently changed first. */
  predicate NewerOrSame(a: Project, b: Project)
  {
    a.lastChange >= b.lastChange
  }

  predicate RepositoryNewerOrSame(a: Repository, b: Repository)
  {
    a.lastChange >= b.lastChange
  }

  /** The projects that are not personal ones, in their original order. */
  function SharedProjects(projects: seq<Project>): (shared: seq<Project>)
    ensures forall p :: p in shared ==> p in projects && !p.isUserProject
    ensures forall p :: p in projects && !p.isUserProject ==> p in shared
  {
    if projects == [] then []
    else
      var last := projects[|projects| - 1];
      var init := projects[..|projects| - 1];
      assert projects == init + [last];
      SharedProjects(init) + if last.isUserProject then [] else [last]
  }

  /** `shown` holds MaxProjects of the shared projects, sorted by name, and none of those left out
      changed later than any of those shown. */
  ghost predicate MostRecentByName(shared: seq<Project>, naturalOrder: (Project, Project) -> bool,
                                   shown: seq<Project>)
  {
    && |shown| == MaxProjects
    && multiset(shown) <= multiset(shared)
    && Sorted(shown, naturalOrder)
    && forall p, q :: p in shown && q in multiset(shared) - multiset(shown) ==> q.lastChange <= p.lastChange
  }

  /** The first MaxProjects of a list sorted newest first changed no earlier than the rest. */
  lemma MostRecentPrefix(shared: seq<Project>, byRecency: seq<Project>, naturalOrder: (Project, Project) -> bool,
                         shown: seq<Project>)
    requires |byRecency| > MaxProjects
    requires multiset(byRecency) == multiset(shared) && Sorted(byRecency, NewerOrSame)
    requires multiset(shown) == multiset(byRecency[..MaxProjects]) && Sorted(shown, naturalOrder)
    ensures MostRecentByName(shared, naturalOrder, shown)
  {
    var top, rest := byRecency[..MaxProjects], byRecency[MaxProjects..];
    assert byRecency == top + rest;
    assert multiset(shared) == multiset(top) + multiset(rest);
    assert |shown| == |multiset(shown)| == |top|;
    forall p, q | p in shown && q in multiset(shared) - multiset(shown)
      ensures q.lastChange <= p.lastChange
    {
      assert p in multiset(top);
      var i :| 0 <= i < |top| && top[i] == p;
      assert q in multiset(rest);
      var j :| 0 <= j < |rest| && rest[j] == q;
      assert NewerOrSame(byRecency[i], byRecency[MaxProjects + j]);
    }
  }

  /** The loop collecting the projects that are not personal ones. */
  method CollectShared(projectModels: seq<Project>) returns (projects: seq<Project>)
    ensures projects == SharedProjects(projectModels)
  {
    projects := [];
    for i := 0 to |projectModels|
      invariant projects == SharedProjects(projectModels[..i])
    {
      var model := projectModels[i];
      if !model.isUserProject {
        projects := projects + [model];
      }
      assert projectModels[..i + 1][..i] == projectModels[..i];
    }
    assert projectModels[..|projectModels|] == projectModels;
  }

  /** Sort by last change, newest first; keep the first MaxProjects; sort those by name. */
  method KeepMostRecent(projects: seq<Project>, naturalOrder: (Project, Project) -> bool)
    returns (shown: seq<Project>)
    requires TotalPreorder(naturalOrder)
    requires |projects| > MaxProjects
    ensures MostRecentByName(projects, naturalOrder, shown)
  {
    assert TotalPreorder(NewerOrSame);
    var byRecency := SortBy(projects, NewerOrSame);
    assert |byRecency| == |multiset(byRecency)| == |multiset(projects)| == |projects|;
    shown := SortBy(byRecency[..MaxProjects], naturalOrder);
    MostRecentPrefix(projects, byRecency, naturalOrder, shown);
  }

  /** The loop adding one menu entry per project. */
  method AddProjectItems(menu: seq<MenuItem>, projects: seq<Project>) returns (result: seq<MenuItem>)
    ensures result == menu + ProjectItems(projects)
  {
    result := menu;
    for i := 0 to |projects|
      invariant result == menu + ProjectItems(projects[..i])
    {
      result := result + [ProjectItem(projects[i])];
    }
    assert projects[..|projects|] == projects;
  }

  /** getProjectsMenu, once the project list is known: the shared projects, and when there are more
      than MaxProjects of them, the MaxProjects most recently changed sorted by name, a divider and
      an "all projects" entry. */
  method ProjectsMenu(projectModels: seq<Project>, naturalOrder: (Project, Project) -> bool)
    returns (menu: seq<MenuItem>)
    requires TotalPreorder(naturalOrder)
    ensures |SharedProjects(projectModels)| <= MaxProjects ==> menu == ProjectItems(SharedProjects(projectModels))
    ensures |SharedProjects(projectModels)| > MaxProjects ==>
              exists shown :: MostRecentByName(SharedProjects(projectModels), naturalOrder, shown)
                              && menu == ProjectItems(shown) + [Divider, AllProjects]
    ensures forall item :: item in menu && item.MenuItem? && item.parameter.Some? ==>
              exists p :: p in projectModels && !p.isUserProject && item == ProjectItem(p)
  {
    var projects := CollectShared(projectModels);
    ghost var shared := projects;
    var showAllProjects := |projects| > MaxProjects;
    if showAllProjects {
      projects := KeepMostRecent(projects, naturalOrder);
      forall p | p in projects
        ensures p in shared
      {
        assert p in multiset(shared);
      }
    }
    menu := AddProjectItems([], projects);
    ghost var extra: seq<MenuItem> := [];
    if showAllProjects {
      menu := menu + [Divider, AllProjects];
      extra := [Divider, AllProjects];
    }
    assert menu == ProjectItems(projects) + extra;
    EntriesLinkToSharedProjects(projects, extra, projectModels);
  }

  /** Every entry carrying a parameter, in a menu of project entries followed by entries without one,
      links to one of the listed shared projects. */
  lemma EntriesLinkToSharedProjects(projects: seq<Project>, extra: seq<MenuItem>, projectModels: seq<Project>)
    requires forall p :: p in projects ==> p in projectModels && !p.isUserProject
    requires forall item :: item in extra ==> !(item.MenuItem? && item.parameter.Some?)
    ensures forall item :: item in ProjectItems(projects) + extra && item.MenuItem? && item.parameter.Some? ==>
              exists p :: p in projectModels && !p.isUserProject && item == ProjectItem(p)
  {
    var menu := ProjectItems(projects) + extra;
    forall item | item in menu && item.MenuItem? && item.parameter.Some?
      ensures exists p :: p in projectModels && !p.isUserProject && item == ProjectItem(p)
    {
      var k :| 0 <= k < |menu| && menu[k] == item;
      assert k < |projects| && item == ProjectItem(projects[k]);
    }
  }

  /** The filters menu: the repository filters, the time filters, and a trailing "reset" entry
      only when there is at least one filter entry before it. */
  function FiltersMenu(repositoryFilterItems: seq<MenuItem>, timeFilterItems: seq<MenuItem>,
                       resetLabel: string, projectName: Option<string>): (items: seq<MenuItem>)
    ensures var filters := repositoryFilterItems + timeFilterItems;
            && |filters| <= |items| && items[..|filters|] == filters
            && (filters == [] ==> items == [])
            && (filters != [] ==> items == filters + [MenuItem(resetLabel, Some("p"), projectName)])
  {
    var items := repositoryFilterItems + timeFilterItems;
    if |items| > 0 then items + [MenuItem(resetLabel, Some("p"), projectName)] else items
  }

  // ---------------------------------------------------------------------------------------------
  // Project lookup

  /** The first project, in list order, whose name equals `name` ignoring case. */
  function FirstNamed(projects: seq<Project>, name: string): (found: Option<Project>)
    ensures found.None? <==> forall p :: p in projects ==> !EqualsIgnoreCase(name, p.name)
    ensures found.Some? ==>
              exists i :: 0 <= i < |projects| && projects[i] == found.value
                          && EqualsIgnoreCase(name, projects[i].name)
                          && forall j :: 0 <= j < i ==> !EqualsIgnoreCase(name, projects[j].name)
  {
    if projects == [] then None
    else if EqualsIgnoreCase(name, projects[0].name) then Some(projects[0])
    else
      var found := FirstNamed(projects[1..], name);
      assert found.Some? ==> exists i :: 1 <= i < |projects| && projects[i] == found.value
                                          && EqualsIgnoreCase(name, projects[i].name)
                                          && forall j :: 0 <= j < i ==> !EqualsIgnoreCase(name, projects[j].name)
      by {
        if found.Some? {
          var i :| 0 <= i < |projects[1..]| && projects[1..][i] == found.value
                   && EqualsIgnoreCase(name, projects[1..][i].name)
                   && forall j :: 0 <= j < i ==> !EqualsIgnoreCase(name, projects[1..][j].name);
          assert projects[i + 1] == found.value;
        }
      }
      found
  }

  /** The search loop of getProjectModel over a known project list. */
  method FindProject(projects: seq<Project>, name: string) returns (project: Option<Project>)
    ensures project == FirstNamed(projects, name)
  {
    for i := 0 to |projects|
      invariant forall j :: 0 <= j < i ==> !EqualsIgnoreCase(name, projects[j].name)
    {
      if EqualsIgnoreCase(name, projects[i].name) {
        return Some(projects[i]);
      }
    }
    return None;
  }

  /** A project whose name is exactly `name` is always found (possibly behind an earlier one
      whose name differs only in case). */
  lemma ExactNameIsFound(projects: seq<Project>, name: string, p: Project)
    requires p in projects && p.name == name
    ensures FirstNamed(projects, name).Some?
    ensures EqualsIgnoreCase(name, FirstNamed(projects, name).value.name)
  {
    assert EqualsIgnoreCase(name, p.name);
  }

  // ---------------------------------------------------------------------------------------------
  // setup

  /** The activity window of the page: the "db" parameter (absent without parameters), or 7 days
      when it is below 1. */
  function ActivityDaysBack(daysBackParameter: Option<int>): (days: int)
    ensures days >= 1
    ensures daysBackParameter.Some? && daysBackParameter.value >= 1 ==> days == daysBackParameter.value
    ensures (daysBackParameter.None? || daysBackParameter.value < 1) ==> days == 7
  {
    var daysBack := if daysBackParameter.None? then 0 else daysBackParameter.value;
    if daysBack < 1 then 7 else daysBack
  }

  /** The repository list of the page, most recently changed first; repositories changed at the
      same time keep their order (the Equivalents of x under RepositoryNewerOrSame are the
      repositories whose last change equals x's). */
  function ReverseChronological(repositories: seq<Repository>): (sorted: seq<Repository>)
    ensures multiset(sorted) == multiset(repositories)
    ensures forall i, j :: 0 <= i < j < |sorted| ==> sorted[i].lastChange >= sorted[j].lastChange
    ensures forall x :: Equivalents(sorted, x, RepositoryNewerOrSame) == Equivalents(repositories, x, RepositoryNewerOrSame)
  {
    assert TotalPreorder(RepositoryNewerOrSame);
    var sorted := SortBy(repositories, RepositoryNewerOrSame);
    assert forall i, j :: 0 <= i < j < |sorted| ==> RepositoryNewerOrSame(sorted[i], sorted[j]);
    sorted
  }

  // ---------------------------------------------------------------------------------------------
  // The page object

  class ProjectPage {
    /** What GitBlit.self().getProjectModels(getRepositoryModels(), false) returns for this page. */
    const projectSource: seq<Project>
    /** The `projectModels` field: empty until first filled. */
    var projectModels: seq<Project>

    constructor (projectSource: seq<Project>)
      ensures this.projectSource == projectSource && projectModels == []
    {
      this.projectSource := projectSource;
      projectModels := [];
    }

    /** getProjectModels: fills the list from the source when it is empty, and returns it. */
    method GetProjectModels() returns (projects: seq<Project>)
      modifies this`projectModels
      ensures old(projectModels) == [] ==> projectModels == projectSource
      ensures old(projectModels) != [] ==> projectModels == old(projectModels)
      ensures projects == projectModels
    {
      if projectModels == [] {
        projectModels := projectModels + projectSource;
      }
      projects := projectModels;
    }

    /** getProjectModel: the first project of the (filled) list named `name` ignoring case, or null. */
    method GetProjectModel(name: string) returns (project: Option<Project>)
      modifies this`projectModels
      ensures projectModels == if old(projectModels) == [] then projectSource else old(projectModels)
      ensures project == FirstNamed(projectModels, name)
    {
      var projects := GetProjectModels();
      project := FindProject(projects, name);
    }

    /** getProjectsMenu, over the (filled) project list. */
    method GetProjectsMenu(naturalOrder: (Project, Project) -> bool) returns (menu: seq<MenuItem>)
      requires TotalPreorder(naturalOrder)
      modifies this`projectModels
      ensures projectModels == if old(projectModels) == [] then projectSource else old(projectModels)
      ensures |SharedProjects(projectModels)| <= MaxProjects ==> menu == ProjectItems(SharedProjects(projectModels))
      ensures |SharedProjects(projectModels)| > MaxProjects ==>
                exists shown :: MostRecentByName(SharedProjects(projectModels), naturalOrder, shown)
                                && menu == ProjectItems(shown) + [Divider, AllProjects]
    {
      var projects := GetProjectModels();
      menu := ProjectsMenu(projects, naturalOrder);
    }
  }
}
