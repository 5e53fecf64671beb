# github-repo-searcher in Dafny

This project models the core of `main.py` from github-repo-searcher. That script
visits every repository of one or more GitHub organizations. It walks each
repository's `.github` directory and logs every `.yml`/`.yaml` file whose
content contains one of the target strings (by default `actions/upload-artifact`).

The network is replaced by values:

- **The GraphQL side.** `Scan.Remote.pages` gives, for each organization, the
  finite sequence of responses to its repository-list queries, in the order they
  are sent. The model records the cursor each query carries (`cursors`), so a
  caller can tie the responses to the cursors they were asked for.
- **The REST side.** `Scan.Remote.sizes` gives each repository's size answer,
  `None` for a non-200 status. `Scan.Remote.trees` gives the contents listing of
  each repository's `.github` directory, as a finite tree.
- **Directory listings.** `DirectoryWalk.Listing` is `Listed(entries)` (status
  200), `NotFound` (404) or `Failed` (any other status). A file entry carries
  its decoded content, or `None` when its content request did not answer 200.
- **GraphQL response bodies.** Every level (`data`, `organization`,
  `repositories`, `nodes`, `pageInfo`, `hasNextPage`, `endCursor`) is a
  `Paging.Field`: `Absent`, `Null` or `Present`. `Absent` and `Null` are kept
  apart because Python's `dict.get(key, default)` returns the default only for a
  missing key. An explicit `null` gives `None`, and the next `.get` on it, or
  iterating over it, raises. That ends the whole run.

Modules, one file each:

- `ContentMatch` (`content_match.dfy`): `search_in_content`.
- `Endpoint` (`endpoint.dfy`): the GraphQL URL built in `execute_graphql_query`.
- `DirectoryWalk` (`directory_walk.dfy`): `search_in_directory`.
- `Paging` (`paging.dfy`): the response shapes and how the `while hasNextPage`
  loop reads them.
- `Scan` (`scan.dfy`): the loops of `main` over organizations, pages and
  repositories, and the log records they produce.
- `Wrappers` (`wrappers.dfy`): an `Option` type.

Each loop of the source is a Dafny `method` with the same loop. It is proved
equal to a specification function: `Matches`, `Walk`/`Trace`, `LogRecords`,
`Names`/`EmptyRepos`/`RepoLog`, `Fetched`/`Visited`/`Crashed` and
`Completed`/`RunLog`.
Lemmas then prove what the source promises about those functions.

Where the code and its description disagree, the model follows the code:

- **A JSON `null` raises.** A response whose `organization` (or `data`,
  `repositories`, `nodes`, `pageInfo`) is `null` is not read as an empty page.
  `main.py:108-110`, `main.py:113` (iterating over a null `nodes`) and
  `main.py:135-136` raise on it, and the run ends there.
  For example, the API answers `"organization": null` for an unknown login
  (`Paging.NullOrganizationRaises`). Only a missing field takes the permissive
  default (`Paging.MissingDataEndsPaging`, `Paging.MissingNodesVisitNothing`).
- **Request failures are not caught.** No request in the source is wrapped in a
  handler, so a transport error ends the run as well. The model has no transport
  errors, only status codes (see "Left out").
- **Empty repositories are still scanned.** The "is empty, skipping" branch only
  prints; the repository is searched anyway (`Scan.EmptyReposAreScanned`).
- **Removing "/v3" can leave a "/v3".** The endpoint removes every "/v3" with a
  single left-to-right pass. The result can therefore still contain "/v3", formed
  across a removed occurrence (`Endpoint.RemovalCanCreateVersion`).

## Model

| member | source | states |
|---|---|---|
| ContentMatch.ContainsIsSubstring | main.py:64 | `Contains(c, t)`, the left-to-right scan, holds exactly when `t` occurs as a contiguous slice of `c` (Python's `t in c`) |
| ContentMatch.MatchesIffSomeTargetOccurs | main.py:61-66 | the result of trying the targets in order with an early return is true iff some target is a substring of the content |
| ContentMatch.SingleTarget | main.py:61-66 | an empty target list matches nothing; with one target the matcher is exactly the substring test |
| ContentMatch.OrderIndependent | main.py:63-65 | two target lists with the same members give the same answer, whatever their order or repetitions |
| ContentMatch.SearchInContent | main.py:61-66 | the loop returns `Matches(content, targets)`, i.e. true iff some target occurs in the content |
| ContentMatch.StepUsingTargetMatches | main.py:64 | a workflow line `uses: <t>...` matches target `t`, whatever follows it |
| ContentMatch.UploadArtifactExample | main.py:148 | the default target matches `uses: actions/upload-artifact@v3` and does not match `on: push` |
| Endpoint.RemoveVersion | main.py:41 | `str.replace("/v3", "")` as a left-to-right scan that only drops characters: the result is never longer than the input |
| Endpoint.RemoveVersionLength | main.py:41 | removing "/v3" never lengthens the URL and shortens it by whole three-character occurrences |
| Endpoint.RemoveVersionIdentity | main.py:41 | the base URL is left unchanged iff it contains no "/v3" |
| Endpoint.RemovalCanCreateVersion | main.py:41 | "/v/v33" becomes "/v3", so the result of the removal may still contain "/v3" |
| Endpoint.GraphqlUrl | main.py:41-46 | the endpoint ends with "/graphql"; it is shorter than the base plus "/graphql" only by whole three-character occurrences; and it is exactly the base plus "/graphql" iff the base holds no "/v3" (as the default `https://api.github.com` does) |
| Endpoint.RemoveEveryOccurrence | main.py:41 | every occurrence of "/v3" is removed: for any split `a + "/v3" + b` the removal is that of `a` followed by that of `b`, with no occurrence straddling the one removed |
| Endpoint.GraphqlUrlDropsEveryVersion | main.py:41-46 | for a base `a + "/v3" + b` the endpoint is the removal applied to `a` and to `b`, then "/graphql" |
| Endpoint.RemoveVersionCons | main.py:41 | a string that does not start with "/v3" keeps its first character, and the removal goes on from the second |
| Endpoint.NoVersionAtFront | main.py:41 | "/v3" inserted after a non-empty string that does not start with "/v3" creates no occurrence at the front |
| Endpoint.EnterpriseBase | main.py:41-46 | an enterprise base `<host>/api/v3` (no other "/v3") becomes `<host>/api/graphql` |
| DirectoryWalk.SearchInDirectory | main.py:68-96 | the walker's result is `Walk(listing)`, and the requests it sends, in order, are `Trace(path, listing)`: one listing request per directory reached and one content request per `.yml`/`.yaml` file |
| DirectoryWalk.WalkEntriesAppend | main.py:77-90 | the result for a concatenation of entries is the concatenation of the results |
| DirectoryWalk.OrderPreserved | main.py:77-90 | each entry's contribution (its URL, or a subdirectory's whole result) appears at the entry's own position |
| DirectoryWalk.UnavailableDirIsolated | main.py:88-96 | a subdirectory whose listing is 404 or another non-200 adds no URL and costs only its own listing request; its siblings' results and requests are unchanged |
| DirectoryWalk.NonConfigFileSkipped | main.py:78-82 | a file whose name ends in neither ".yml" nor ".yaml" adds no URL and no request |
| DirectoryWalk.WalkIsHitsOfFiles | main.py:77-90 | the walk equals the report URLs of the hit files in the flattened file list of the tree, in order |
| DirectoryWalk.WalkEntriesIsHitsOfFiles | main.py:77-90 | the same for a run of entries |
| DirectoryWalk.FetchesAreConfigFiles | main.py:78-82 | the content requests of a walk are exactly the content URLs of the tree's `.yml`/`.yaml` files, in order |
| DirectoryWalk.FetchesOfEntriesAreConfigFiles | main.py:77-89 | the same for a run of entries |
| DirectoryWalk.HitUrlsMembership | main.py:80-87 | a URL is among the hit URLs of a file list iff some file in it is a hit with that report URL |
| DirectoryWalk.ReportedIffHit | main.py:80-87 | a URL is reported iff some file in the tree is a `.yml`/`.yaml` file whose content request answered 200, whose content matches, and whose `html_url` it is |
| DirectoryWalk.AcmeWorkflows | main.py:68-96 | in a `.github/workflows` with a matching `ci.yml` and a non-matching `lint.yaml`, only `ci.yml` is reported, and both files are fetched in order |
| Paging.ReadingRepositories | main.py:108-109 | reading `repositories` raises exactly when `data`, `organization` or `repositories` is an explicit null; with every level present it is that object; a missing level reads as an object with neither `nodes` nor `pageInfo` |
| Paging.ReadingNodes | main.py:110-113 | reading and iterating over `nodes` raises exactly when `repositories` cannot be read or `nodes` is null; a present `nodes` is that list and a missing one is empty |
| Paging.ReadingPageInfo | main.py:135-137 | reading `pageInfo` raises exactly when `repositories` cannot be read or `pageInfo` is null; another page is asked for iff `hasNextPage` is present and true; the next cursor is the `endCursor` when present and None otherwise |
| Paging.RaisesIffNullOnPath | main.py:108-136 | a page is read without raising exactly when no field on the way to `nodes` and `pageInfo` is an explicit null; missing fields never raise |
| Paging.Fetched | main.py:105-107 | when the responses end the loop, at least one and at most all of them are requested |
| Paging.VisitedIsPrefix | main.py:105-137 | the repositories the loop visits are a prefix of all the pages' node lists, in order |
| Paging.CrashedAtLastPage | main.py:105-137 | the loop raises exactly when it ends and the last page it fetches cannot be read |
| Paging.PagingVisitsAllPages | main.py:105-137 | if pages 0..n-1 ask for a next page and page n does not, the loop sends n + 1 queries, visits exactly the node lists of pages 0..n concatenated in order, and raises iff page n cannot be read |
| Paging.CursorsExtend | main.py:101-137 | each query after the first carries the `endCursor` of the page before it, which asked for a next page; the first carries none |
| Paging.MissingDataEndsPaging | main.py:108-110 | a response without "data" is an empty last page: one query, nothing visited, no error |
| Paging.MissingNodesVisitNothing | main.py:110-113 | a page without "nodes" visits no repository, and its "pageInfo" alone decides whether paging continues |
| Paging.NullOrganizationRaises | main.py:108-109 | a null "organization" raises before any repository of the page is visited |
| Paging.NullPageInfoRaisesAfterNodes | main.py:135-136 | with a null "pageInfo" the page's repositories are all visited, and then the run raises |
| Paging.SingleLastPage | main.py:105-137 | a single page that asks for no next page is one query that visits exactly its nodes and ends normally |
| Scan.TrimStartCuts | main.py:100 | trimming the start drops only a leading run of whitespace and stops at the first non-whitespace character |
| Scan.TrimEndCuts | main.py:100 | trimming the end drops only a trailing run of whitespace and stops at the last non-whitespace character |
| Scan.StripIsSlice | main.py:100 | `org.strip()` is a slice of `org` cut only through whitespace, and neither starts nor ends with whitespace |
| Scan.StripTrimmed | main.py:100 | a name without whitespace at either end is left as it is |
| Scan.StripIdempotent | main.py:100 | stripping twice is stripping once |
| Scan.EmptyReposAreScanned | main.py:115-122 | every repository reported empty (size 0) is among the scanned repositories: the notice does not skip the search |
| Scan.LogRecordsAreMatches | main.py:122-128 | every log record is `org/repo: url` for a visited repository and a URL its walk reported |
| Scan.NamesAppend | main.py:113 | the repositories scanned for consecutive node lists are the concatenation of each list's |
| Scan.RepoLogAppend | main.py:113-128 | the log of consecutive node lists is the concatenation of each list's log |
| Scan.ScanRepository | main.py:114-133 | one repository: the empty notice is printed iff its size answer is 0, and the records logged are `org/repo: url` for each URL of the `.github` walk, in order |
| Scan.ScanRepositories | main.py:113-133 | one page: every node is scanned in order, the empty notices are those of size-0 repositories, and the log is the concatenation of the repositories' records |
| Scan.ScanOrganization | main.py:100-138 | one organization: it sends `Fetched(responses)` queries with chained cursors, raises iff `Crashed(responses)`, and scans, reports and logs exactly the repositories `Visited(responses)` |
| Scan.ScanPage | main.py:106-137 | one pass of the paging loop: the page's visited repositories are scanned and logged; it raises iff the page cannot be read; it asks for another page iff the page continues, with that page's `endCursor` |
| Scan.RunOrganization | main.py:99-138 | one pass of the loop over organizations: the name is stripped, and the scan raises iff `OrgCrashes` and logs `OrgLog`, the log of the repositories visited for the stripped name |
| Scan.NextReached | main.py:99-107 | an organization the run reaches has responses that end the paging loop |
| Scan.RunStep | main.py:99-138 | one more organization: its log follows what the run logged so far; if it raised the run completes no more; if not, the run goes on with the next organization, which it reaches |
| Scan.CompletedStopsAtFirstCrash | main.py:99-138 | every organization before the `Completed` count ends normally, and the one at that position, if any, raises |
| Scan.ScanOrganizations | main.py:98-141 | all organizations in turn, each stripped: `completed` is the number before the first one that raises, the run stops iff one raises, and the log is `RunLog(orgs)` |
| Scan.SingleOrganization | main.py:99-138 | a run over one organization logs what its scan of the stripped name logs |
| Scan.AcmeRepoLog | main.py:113-128 | the repository `infra` with the example `.github` logs exactly `acme/infra: <ci.yml's html_url>` |
| Scan.AcmeScenario | main.py:98-141 | a run over organization `acme` with one page holding `infra` logs exactly one record, for `ci.yml` |

## Left out

- HTTP requests and JSON decoding (`requests.get`, `requests.post`, `.json()`) are replaced by the `Remote` values and the response datatypes. Transport errors, which the source does not catch and which would end the run, are not modelled.
- The Authorization and Accept headers, and the token, do not affect any result, so they are not modelled.
- Base64 and UTF-8 decoding of file contents are not modelled: a file's content is given already decoded. A content that fails to decode would raise in the source. A content response without a "content" field decodes to the empty string, which a file's content can also be.
- A listing item without "type", "name", "url" or "html_url", and a repository node without "name" (the source then uses `None` in URLs), are not modelled.
- Malformed JSON that is not an object at some level (say a list where an object is expected) is not modelled. Only missing, null and present fields are.
- `is_repository_empty` is modelled only as the size answer it returns; its failure message is a print. A 200 answer without "size" would raise; this is not modelled.
- Console output (`print`, the `color` escape codes, the per-repository headings and the "no more repositories" notice) is not modelled.
- The "INFO:root:" prefix that `logging` adds to each record in the log file is not modelled. Log records are the messages passed to `logging.info`.
- Argument parsing, environment-variable defaults, the missing-token exit and the date-based log file name (main.py:143-161) are not modelled. The default target `actions/upload-artifact` is `ContentMatch.UploadArtifact`.
- ScanOrganization: requires that the responses end the loop (`Paging.Stops`), because the responses are a finite sequence. A backend that answers `hasNextPage: true` forever makes the source loop forever; that behaviour is not modelled.
- ScanOrganizations: requires the same of every organization the run reaches (`Scan.ReachedStop`): the organizations up to and including the first one that raises. Later organizations are never queried and are unconstrained.
- The GraphQL responses of an organization are one sequence fixed in advance, rather than a function of the cursor sent. The cursors the loop sends are returned so that the two can be related.
- Endpoint.GraphqlUrl: does not promise that the endpoint contains no "/v3". Every occurrence in the base is removed (`Endpoint.RemoveEveryOccurrence`), but `Endpoint.RemovalCanCreateVersion` shows a base for which the removal forms a new one.
