/** SyndicationFilter: the access-restriction decisions for feed requests. The filter chain that
    issues the authentication challenge (AccessRestrictionFilter) is not part of this model. */
module SyndicationFilter {
  import opened Models
  import opened Text

  /** The repository name of a feed url: everything before the first '?', or the whole url. */
  function ExtractRepositoryName(url: string): (name: string)
    ensures name <= url
    ensures '?' !in name
    ensures '?' in url ==> url[|name|] == '?'
    ensures '?' !in url ==> name == url
  {
    if IndexOf(url, '?') > -1 then url[..IndexOf(url, '?')] else url
  }

  /** Cutting the query off a second time changes nothing. */
  lemma ExtractRepositoryNameIsIdempotent(url: string)
    ensures ExtractRepositoryName(ExtractRepositoryName(url)) == ExtractRepositoryName(url)
  {
  }

  /** Every feed request asks for the VIEW action, whatever its url. */
  function GetUrlRequestAction(url: string): (action: string)
    ensures action == "VIEW"
  {
    "VIEW"
  }

  /** Authentication is required for repositories restricted at least at VIEW level, which in the
      order NONE < PUSH < CLONE < VIEW means exactly the VIEW-restricted ones. */
  function RequiresAuthentication(repository: Repository): (required: bool)
    ensures required <==> repository.accessRestriction == VIEW
    ensures required <==> forall level :: AtLeast(repository.accessRestriction, level)
  {
    AtLeast(repository.accessRestriction, VIEW)
  }

  /** Access is the user's own decision about the repository (UserModel.canAccessRepository,
      given here as canAccessRepository); the requested action plays no part. */
  function CanAccess(repository: Repository, user: User, action: string,
                     canAccessRepository: (User, Repository) -> bool): (allowed: bool)
    ensures allowed == canAccessRepository(user, repository)
  {
    canAccessRepository(user, repository)
  }

  /** Two requests for the same repository by the same user get the same answer, whatever actions they name. */
  lemma CanAccessIgnoresAction(repository: Repository, user: User, action: string, other: string,
                               canAccessRepository: (User, Repository) -> bool)
    ensures CanAccess(repository, user, action, canAccessRepository)
         == CanAccess(repository, user, other, canAccessRepository)
  {
  }
}
