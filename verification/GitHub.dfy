/** The GitHub adapter: the walk over a user's installations and the decision chain of Authorize.
    GitHub's answers are a parameter: what request number n for a path would return. */
module GitHub {
  import opened Wrappers
  import opened GoText
  import opened Forge
  import LinkHeader

  const FIRST_PATH := "/user/installations?per_page=100"
  const MAX_PAGES: nat := 100

  /** One page: the decoded installation IDs and the Link header. */
  datatype Page = Page(installations: seq<int64>, link: string)

  type Pages = (nat, string) -> Result<Page, Error>

  /** A way to read the next page's URL from a Link header, empty when there is none: the code's own is
      LinkHeader.NextOf. */
  type Reader = string -> string

  /** The path of page k, as long as the pages before it exist. */
  ghost function PathAt(pages: Pages, read: Reader, k: nat): string {
    if k == 0 then FIRST_PATH
    else
      match pages(k - 1, PathAt(pages, read, k - 1))
      case Success(page) => read(page.link)
      case Failure(_) => ""
  }

  ghost function PageAt(pages: Pages, read: Reader, k: nat): Result<Page, Error> {
    pages(k, PathAt(pages, read, k))
  }

  /** Pages 0 to k - 1 arrived without an error and each links to the next. */
  ghost predicate Reaches(pages: Pages, read: Reader, k: nat) {
    forall j :: 0 <= j < k ==> PageAt(pages, read, j).Success? && read(PageAt(pages, read, j).value.link) != ""
  }

  ghost predicate Lists(pages: Pages, read: Reader, k: nat, target: int64) {
    PageAt(pages, read, k).Success? && target in PageAt(pages, read, k).value.installations
  }

  /** The target is on one of the first hundred pages, with no error on the way there. */
  ghost predicate OnSomePage(pages: Pages, read: Reader, target: int64) {
    exists k :: 0 <= k < MAX_PAGES && Reaches(pages, read, k) && Lists(pages, read, k, target)
  }

  /** The list ends within a hundred pages, free of errors, and no page holds the target. */
  ghost predicate OnNoPage(pages: Pages, read: Reader, target: int64) {
    exists k :: 0 <= k < MAX_PAGES && Reaches(pages, read, k)
      && PageAt(pages, read, k).Success? && read(PageAt(pages, read, k).value.link) == ""
      && forall j :: 0 <= j <= k ==> !Lists(pages, read, j, target)
  }

  /** An error came first, or a hundred pages were not enough. */
  ghost predicate Undecided(pages: Pages, read: Reader, target: int64, e: Error) {
    || (exists k :: 0 <= k < MAX_PAGES && Reaches(pages, read, k) && PageAt(pages, read, k) == Failure(e)
          && forall j :: 0 <= j < k ==> !Lists(pages, read, j, target))
    || (e == Unavailable && Reaches(pages, read, MAX_PAGES)
          && forall j :: 0 <= j < MAX_PAGES ==> !Lists(pages, read, j, target))
  }

  lemma NotFoundAndEnded(pages: Pages, read: Reader, target: int64)
    ensures !(OnSomePage(pages, read, target) && OnNoPage(pages, read, target))
  {
    hide PageAt;
  }

  lemma UndecidedIsNeither(pages: Pages, read: Reader, target: int64, e: Error)
    requires Undecided(pages, read, target, e)
    ensures !OnSomePage(pages, read, target) && !OnNoPage(pages, read, target)
  {
    hide PageAt;
  }

  lemma OneError(pages: Pages, read: Reader, target: int64, e: Error, f: Error)
    requires Undecided(pages, read, target, e) && Undecided(pages, read, target, f)
    ensures e == f
  {
    hide PageAt, Lists;
  }

  /** The page chain determines the answer. */
  lemma OneAnswerOnly(pages: Pages, read: Reader, target: int64)
    ensures !(OnSomePage(pages, read, target) && OnNoPage(pages, read, target))
    ensures forall e :: Undecided(pages, read, target, e) ==>
                          !OnSomePage(pages, read, target) && !OnNoPage(pages, read, target)
    ensures forall e, f :: Undecided(pages, read, target, e) && Undecided(pages, read, target, f) ==> e == f
  {
    hide OnSomePage, OnNoPage, Undecided;
    NotFoundAndEnded(pages, read, target);
    forall e | Undecided(pages, read, target, e)
      ensures !OnSomePage(pages, read, target) && !OnNoPage(pages, read, target)
    {
      UndecidedIsNeither(pages, read, target, e);
    }
    forall e, f | Undecided(pages, read, target, e) && Undecided(pages, read, target, f) ensures e == f {
      OneError(pages, read, target, e, f);
    }
  }

  /** What page k settles once the pages before it did not. */
  lemma Settled(pages: Pages, read: Reader, target: int64, k: nat)
    requires k < MAX_PAGES && Reaches(pages, read, k) && forall j :: 0 <= j < k ==> !Lists(pages, read, j, target)
    ensures PageAt(pages, read, k).Failure? ==> Undecided(pages, read, target, PageAt(pages, read, k).error)
    ensures Lists(pages, read, k, target) ==> OnSomePage(pages, read, target)
    ensures PageAt(pages, read, k).Success? && !Lists(pages, read, k, target) ==>
              (read(PageAt(pages, read, k).value.link) == "" ==> OnNoPage(pages, read, target))
  {
    hide PageAt;
  }

  lemma TooManyPages(pages: Pages, read: Reader, target: int64)
    requires Reaches(pages, read, MAX_PAGES) && forall j :: 0 <= j < MAX_PAGES ==> !Lists(pages, read, j, target)
    ensures Undecided(pages, read, target, Unavailable)
  {}

  /** The walk starts at the user's installations, a hundred to a page, and gives up after a hundred pages. */
  lemma WalkLimits(pages: Pages, read: Reader, target: int64)
    ensures PageAt(pages, read, 0) == pages(0, "/user/installations?per_page=100")
    ensures Reaches(pages, read, 100) && (forall j :: 0 <= j < 100 ==> !Lists(pages, read, j, target)) ==>
              Undecided(pages, read, target, Unavailable)
  {}

  /** userCanAccessInstallation, over any page graph, cycles included: true, false and each error are
      returned exactly when the page chain says so, as the code reads the Link headers. */
  method UserCanAccessInstallation(pages: Pages, target: int64) returns (r: Result<bool, Error>)
    ensures r == Success(true) <==> OnSomePage(pages, LinkHeader.NextOf, target)
    ensures r == Success(false) <==> OnNoPage(pages, LinkHeader.NextOf, target)
    ensures forall e :: r == Failure(e) <==> Undecided(pages, LinkHeader.NextOf, target, e)
  {
    hide LinkHeader.NextOf, OnSomePage, OnNoPage, Undecided;
    ghost var read := LinkHeader.NextOf;
    OneAnswerOnly(pages, read, target);
    var path := FIRST_PATH;
    for page := 0 to MAX_PAGES
      invariant Reaches(pages, read, page) && path == PathAt(pages, read, page)
      invariant forall j :: 0 <= j < page ==> !Lists(pages, read, j, target)
    {
      var response := pages(page, path);
      assert response == PageAt(pages, read, page);
      Settled(pages, read, target, page);
      if response.Failure? {
        return Failure(response.error);
      }
      var installations := response.value.installations;
      for i := 0 to |installations|
        invariant target !in installations[..i]
      {
        if installations[i] == target {
          return Success(true);
        }
      }
      assert installations[..|installations|] == installations;
      var next := LinkHeader.ParseNext(response.value.link);
      assert next == read(response.value.link);
      if next == "" {
        return Success(false);
      }
      path := next;
    }
    TooManyPages(pages, read, target);
    return Failure(Unavailable);
  }

  // ----- the list as the standard links it

  /** Two readers give the same chain of pages as long as they read the same from every page on it. */
  ghost predicate ReadAlike(pages: Pages, read: Reader, meant: Reader) {
    forall k :: 0 <= k < MAX_PAGES && Reaches(pages, meant, k) && PageAt(pages, meant, k).Success? ==>
      read(PageAt(pages, meant, k).value.link) == meant(PageAt(pages, meant, k).value.link)
  }

  lemma ReachesNext(pages: Pages, read: Reader, k: nat)
    requires k > 0
    ensures Reaches(pages, read, k) <==>
              && Reaches(pages, read, k - 1) && PageAt(pages, read, k - 1).Success?
              && read(PageAt(pages, read, k - 1).value.link) != ""
  {}

  lemma {:induction false} SameChain(pages: Pages, read: Reader, meant: Reader, k: nat)
    requires ReadAlike(pages, read, meant) && k <= MAX_PAGES
    ensures Reaches(pages, read, k) <==> Reaches(pages, meant, k)
    ensures Reaches(pages, read, k) ==> PathAt(pages, read, k) == PathAt(pages, meant, k)
  {
    if k > 0 {
      SameChain(pages, read, meant, k - 1);
      ReachesNext(pages, read, k);
      ReachesNext(pages, meant, k);
    }
  }

  ghost predicate SameAnswer(pages: Pages, read: Reader, meant: Reader, target: int64) {
    && (OnSomePage(pages, read, target) <==> OnSomePage(pages, meant, target))
    && (OnNoPage(pages, read, target) <==> OnNoPage(pages, meant, target))
    && (forall e :: Undecided(pages, read, target, e) <==> Undecided(pages, meant, target, e))
  }

  /** Page k is reached by both readers, and read the same. */
  ghost predicate SamePage(pages: Pages, a: Reader, b: Reader, k: nat) {
    && Reaches(pages, b, k) && PageAt(pages, a, k) == PageAt(pages, b, k)
    && (PageAt(pages, b, k).Success? ==> a(PageAt(pages, b, k).value.link) == b(PageAt(pages, b, k).value.link))
  }

  ghost predicate Follows(pages: Pages, a: Reader, b: Reader) {
    && (forall k: nat :: k < MAX_PAGES && Reaches(pages, a, k) ==> SamePage(pages, a, b, k))
    && (Reaches(pages, a, MAX_PAGES) ==> Reaches(pages, b, MAX_PAGES))
  }

  lemma ReachesLess(pages: Pages, read: Reader, k: nat)
    requires Reaches(pages, read, k)
    ensures forall j: nat :: j <= k ==> Reaches(pages, read, j)
  {}

  lemma SameUnlisted(pages: Pages, a: Reader, b: Reader, k: nat, target: int64)
    requires Follows(pages, a, b) && k <= MAX_PAGES && Reaches(pages, a, k)
    ensures (forall j :: 0 <= j < k ==> !Lists(pages, a, j, target))
        ==> (forall j :: 0 <= j < k ==> !Lists(pages, b, j, target))
    ensures k < MAX_PAGES ==> (Lists(pages, a, k, target) <==> Lists(pages, b, k, target))
  {
    ReachesLess(pages, a, k);
    forall j: nat | j <= k && j < MAX_PAGES ensures Lists(pages, a, j, target) <==> Lists(pages, b, j, target) {
      assert SamePage(pages, a, b, j);
    }
  }

  lemma FollowsAnswers(pages: Pages, a: Reader, b: Reader, target: int64)
    requires Follows(pages, a, b)
    ensures OnSomePage(pages, a, target) ==> OnSomePage(pages, b, target)
    ensures OnNoPage(pages, a, target) ==> OnNoPage(pages, b, target)
    ensures forall e :: Undecided(pages, a, target, e) ==> Undecided(pages, b, target, e)
  {
    forall k: nat | k < MAX_PAGES && Reaches(pages, a, k) ensures SamePage(pages, a, b, k) {}
    forall k: nat | k <= MAX_PAGES && Reaches(pages, a, k)
      ensures (forall j :: 0 <= j < k ==> !Lists(pages, a, j, target))
          ==> (forall j :: 0 <= j < k ==> !Lists(pages, b, j, target))
      ensures k < MAX_PAGES ==> (Lists(pages, a, k, target) <==> Lists(pages, b, k, target))
    {
      SameUnlisted(pages, a, b, k, target);
    }
    hide PageAt, Reaches, Lists;
  }

  /** Then they agree on every target. */
  lemma ReadAlikeAnswersAlike(pages: Pages, read: Reader, meant: Reader, target: int64)
    requires ReadAlike(pages, read, meant)
    ensures SameAnswer(pages, read, meant, target)
  {
    forall k: nat | k <= MAX_PAGES
      ensures Reaches(pages, read, k) <==> Reaches(pages, meant, k)
      ensures Reaches(pages, read, k) ==> PathAt(pages, read, k) == PathAt(pages, meant, k)
    {
      SameChain(pages, read, meant, k);
    }
    hide PathAt, Reaches;
    assert Follows(pages, read, meant) && Follows(pages, meant, read);
    hide PageAt, Lists, OnSomePage, OnNoPage, Undecided, Follows;
    FollowsAnswers(pages, read, meant, target);
    FollowsAnswers(pages, meant, read, target);
  }

  /** Every page carries this header; page 1, and only at this path, lists the target. */
  function TwoPages(header: string, path: string, target: int64): Pages {
    (n: nat, at: string) => Success(Page(if n == 1 && at == path then [target] else [], header))
  }

  lemma SecondPath(header: string, path: string, target: int64, read: Reader)
    ensures PathAt(TwoPages(header, path, target), read, 1) == read(header)
  {
    assert PathAt(TwoPages(header, path, target), read, 0) == FIRST_PATH;
  }

  /** A misread header is enough: on a site whose pages all carry it the answers differ. Where the next
      link is passed over, the search is cut short and the answer is a false no. */
  lemma MisreadMisleads(header: string, read: Reader, meant: Reader, target: int64) returns (pages: Pages)
    requires read(header) != meant(header)
    ensures forall n, path :: pages(n, path).Success? && pages(n, path).value.link == header
    ensures !SameAnswer(pages, read, meant, target)
    ensures read(header) == "" ==> OnSomePage(pages, meant, target) && OnNoPage(pages, read, target)
  {
    var path := if meant(header) != "" then meant(header) else read(header);
    pages := TwoPages(header, path, target);
    var on, off := if meant(header) != "" then meant else read, if meant(header) != "" then read else meant;
    SecondPath(header, path, target, on);
    SecondPath(header, path, target, off);
    assert Lists(pages, on, 1, target) && Reaches(pages, on, 1);
    forall k: nat ensures !Lists(pages, off, k, target) {}
    assert Reaches(pages, read, 0);
    hide PathAt;
  }

  ghost predicate Carries(pages: Pages, headers: set<string>) {
    forall n: nat, path: string :: pages(n, path).Success? ==> pages(n, path).value.link in headers
  }

  /** Over all sites with these headers and all targets, the walk is right exactly when the code reads
      every one of the headers as it is meant. */
  lemma RightExactlyWhenReadRight(headers: set<string>, meant: Reader)
    ensures (forall pages: Pages, target: int64 :: Carries(pages, headers) ==>
               SameAnswer(pages, LinkHeader.NextOf, meant, target))
       <==> (forall header <- headers :: LinkHeader.NextOf(header) == meant(header))
  {
    hide LinkHeader.NextOf, SameAnswer;
    var read := LinkHeader.NextOf;
    if forall header <- headers :: read(header) == meant(header) {
      forall pages: Pages, target: int64 | Carries(pages, headers) ensures SameAnswer(pages, read, meant, target) {
        ReadAlikeAnswersAlike(pages, read, meant, target);
      }
    }
    if header :| header in headers && read(header) != meant(header) {
      var pages := MisreadMisleads(header, read, meant, 1);
      assert Carries(pages, headers) && !SameAnswer(pages, read, meant, 1);
    }
  }

  /** A page whose header has `rel` first in every link, as GitHub writes it, with a next URL that can be
      read. */
  ghost predicate RelFirstPage(page: Page, meant: Reader) {
    exists links :: IsRelFirst(page.link, meant, links)
  }

  ghost predicate IsRelFirst(link: string, meant: Reader, links: seq<LinkHeader.Link>) {
    && LinkHeader.PlainHeader(links) && (forall l <- links :: LinkHeader.RelFirst(l))
    && link == LinkHeader.HeaderText(links) && meant(link) == LinkHeader.StandardUrl(links)
    && LinkHeader.Readable(LinkHeader.StandardUrl(links))
  }

  /** On sites of such pages the search follows the standard's next links, so false is not a truncated
      search there. */
  lemma RelFirstSearched(pages: Pages, meant: Reader, target: int64)
    requires forall k :: 0 <= k < MAX_PAGES && Reaches(pages, meant, k) && PageAt(pages, meant, k).Success? ==>
               RelFirstPage(PageAt(pages, meant, k).value, meant)
    ensures SameAnswer(pages, LinkHeader.NextOf, meant, target)
  {
    hide LinkHeader.NextOf;
    forall k | 0 <= k < MAX_PAGES && Reaches(pages, meant, k) && PageAt(pages, meant, k).Success?
      ensures LinkHeader.NextOf(PageAt(pages, meant, k).value.link) == meant(PageAt(pages, meant, k).value.link)
    {
      var links :| IsRelFirst(PageAt(pages, meant, k).value.link, meant, links);
      LinkHeader.StandardLinkRead(links);
    }
    ReadAlikeAnswersAlike(pages, LinkHeader.NextOf, meant, target);
  }

  /** Elsewhere it can be: a next link that the code passes over leads to the page with the target. */
  lemma TruncatedSearch(before: string, url: string, unseen: LinkHeader.Unseen, meant: Reader, target: int64)
      returns (pages: Pages)
    requires AllSpace(before) && url != "" && '"' !in url
    requires unseen.RelSecond? ==> forall c <- unseen.title :: c !in ",;\""
    requires var links := [LinkHeader.Link(before, url, unseen.Params())];
             meant(LinkHeader.HeaderText(links)) == LinkHeader.StandardUrl(links)
    ensures OnSomePage(pages, meant, target) && OnNoPage(pages, LinkHeader.NextOf, target)
  {
    hide LinkHeader.NextOf, LinkHeader.HeaderText, LinkHeader.StandardUrl;
    LinkHeader.PassedOver(before, url, unseen);
    var header := LinkHeader.HeaderText([LinkHeader.Link(before, url, unseen.Params())]);
    pages := MisreadMisleads(header, LinkHeader.NextOf, meant, target);
  }

  // ----- Authorize

  datatype Installation = Installation(id: int64, clientID: string)

  datatype Repository = Repository(id: int64, fullName: string, pull: bool, push: bool)

  /** What GitHub would answer to each request of one authorization. */
  datatype GitHubView = GitHubView(installation: Result<Installation, Error>, pages: Pages,
                                   repository: Result<Repository, Error>)

  datatype Asked = AskedInstallation | AskedUser | AskedRepository

  /** The App is installed on the repository through an allowlisted installation of this App. */
  ghost predicate Admissible(clientID: string, allowed: set<int64>, view: GitHubView) {
    && view.installation.Success?
    && view.installation.value.id > 0
    && view.installation.value.clientID in {"", clientID}
    && view.installation.value.id in allowed
  }

  /** What GitHub must say for this authorization: the token is a GitHub App user token, the repository's
      installation is admissible, the user's pages list it, and the repository has this identity and
      gives the user this permission, a push right counting as Write. */
  ghost predicate Grants(clientID: string, allowed: set<int64>, token: string, view: GitHubView, a: Authorization) {
    && "ghu_" <= token && Admissible(clientID, allowed, view)
    && OnSomePage(view.pages, LinkHeader.NextOf, view.installation.value.id)
    && view.repository.Success? && view.repository.value.id > 0 && view.repository.value.fullName != ""
    && a.repositoryID == view.repository.value.id && a.canonicalName == view.repository.value.fullName
    && (a.permission == Write <==> view.repository.value.push)
    && (a.permission == Read <==> view.repository.value.pull && !view.repository.value.push)
  }

  /** A repository that a user of an admissible installation may neither pull nor push: GitHub grants an
      authorization with no permission. */
  lemma GrantsWithoutRights(clientID: string, allowed: set<int64>, token: string, id: int64, repositoryID: int64)
      returns (view: GitHubView, a: Authorization)
    requires "ghu_" <= token && id in allowed && id > 0 && repositoryID > 0
    ensures Grants(clientID, allowed, token, view, a)
    ensures a.permission == NoPermission && a.repositoryID == repositoryID
    ensures !view.repository.value.pull && !view.repository.value.push
  {
    var pages := (n: nat, path: string) => Success(Page([id], ""));
    view := GitHubView(Success(Installation(id, clientID)), pages,
                       Success(Repository(repositoryID, "o/r", false, false)));
    a := Authorization(repositoryID, NoPermission, "o/r");
    assert Reaches(pages, LinkHeader.NextOf, 0) && Lists(pages, LinkHeader.NextOf, 0, id);
  }

  /** Authorize: an authorization comes out exactly when GitHub grants it. The user is asked about only
      after the allowlist, the repository only after the user. */
  method Authorize(clientID: string, allowed: set<int64>, token: string, view: GitHubView)
      returns (r: Result<Authorization, Error>, asked: seq<Asked>)
    ensures forall a :: r == Success(a) <==> Grants(clientID, allowed, token, view, a)
    ensures !("ghu_" <= token) ==> r == Failure(Unauthenticated)
    ensures "ghu_" <= token && view.installation.Failure? ==> r == Failure(view.installation.error)
    ensures "ghu_" <= token && view.installation.Success? && !Admissible(clientID, allowed, view) ==>
              r == Failure(NotFound)
    ensures "ghu_" <= token && Admissible(clientID, allowed, view) ==>
              && (OnNoPage(view.pages, LinkHeader.NextOf, view.installation.value.id) ==> r == Failure(Unauthenticated))
              && (forall e :: Undecided(view.pages, LinkHeader.NextOf, view.installation.value.id, e) ==>
                    r == Failure(e))
              && (OnSomePage(view.pages, LinkHeader.NextOf, view.installation.value.id) && r.Failure? ==>
                    r.error == if view.repository.Failure? then view.repository.error else NotFound)
    ensures asked <= [AskedInstallation, AskedUser, AskedRepository]
    ensures AskedInstallation in asked <==> "ghu_" <= token
    ensures AskedUser in asked <==> "ghu_" <= token && Admissible(clientID, allowed, view)
    ensures AskedRepository in asked <==>
              && "ghu_" <= token && Admissible(clientID, allowed, view)
              && OnSomePage(view.pages, LinkHeader.NextOf, view.installation.value.id)
  {
    asked := [];
    if !("ghu_" <= token) {
      return Failure(Unauthenticated), asked;
    }
    asked := [AskedInstallation];
    if view.installation.Failure? {
      return Failure(view.installation.error), asked;
    }
    var installation := view.installation.value;
    if installation.id <= 0 {
      return Failure(NotFound), asked;
    }
    if installation.clientID != "" && installation.clientID != clientID {
      return Failure(NotFound), asked;
    }
    if installation.id !in allowed {
      return Failure(NotFound), asked;
    }
    asked := [AskedInstallation, AskedUser];
    var matched := UserCanAccessInstallation(view.pages, installation.id);
    if matched.Failure? {
      OneAnswerOnly(view.pages, LinkHeader.NextOf, installation.id);
      return Failure(matched.error), asked;
    }
    if !matched.value {
      return Failure(Unauthenticated), asked;
    }
    asked := [AskedInstallation, AskedUser, AskedRepository];
    if view.repository.Failure? {
      return Failure(view.repository.error), asked;
    }
    var repo := view.repository.value;
    if repo.id <= 0 || repo.fullName == "" {
      return Failure(NotFound), asked;
    }
    var permission := NoPermission;
    if repo.pull {
      permission := Read;
    }
    if repo.push {
      permission := Write;
    }
    return Success(Authorization(repo.id, permission, repo.fullName)), asked;
  }
}
