/** The read models the pages and the filter work on: repositories, projects, users and teams.
    Dates (java.util.Date) are milliseconds since the epoch. */
module Models {

  /** Constants.AccessRestrictionType, in declaration order: from least to most restrictive. */
  datatype AccessRestriction = NONE | PUSH | CLONE | VIEW

  /** Position of a restriction level in the declaration order. */
  function Ordinal(a: AccessRestriction): nat
  {
    match a
    case NONE => 0
    case PUSH => 1
    case CLONE => 2
    case VIEW => 3
  }

  /** AccessRestrictionType.atLeast: an ordinal comparison. */
  predicate AtLeast(a: AccessRestriction, b: AccessRestriction): (atLeast: bool)
    ensures atLeast <==> b == NONE || a == VIEW || a == b || (a == CLONE && b == PUSH)
  {
    Ordinal(a) >= Ordinal(b)
  }

  /** The part of RepositoryModel this core reads. */
  datatype Repository = Repository(name: string, accessRestriction: AccessRestriction, lastChange: int)

  /** The part of ProjectModel this core reads: the names of its repositories, the date of the
      latest change among them, and whether it is a personal ("~user") project. */
  datatype Project = Project(
    name: string,
    displayName: string,
    repositories: seq<string>,
    lastChange: int,
    isUserProject: bool)

  /** UserModel; what a user may access is decided by a collaborator outside this core. */
  datatype User = User(username: string)

  /** TeamModel; which repositories a team is permitted is decided by a collaborator outside this core. */
  datatype Team = Team(name: string)
}
