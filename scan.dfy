/**
 * The scan loop of `main`: for each organization, page through its
 * repositories and walk each repository's ".github" directory, logging one
 * record per matched file.
 */
module Scan {
  import opened Wrappers
  import opened DirectoryWalk
  import opened Paging
  import opened ContentMatch

  /**
   * The remote side, as values: the GraphQL responses for an organization in
   * the order they are requested, the answer to the repository-size request
   * (None for a non-200 answer), and the listing response for a repository's
   * ".github" directory.
   */
  datatype Remote = Remote(
    pages: string -> seq<Response>,
    sizes: (string, string) -> Option<int>,
    trees: (string, string) -> Listing)

  const RootDir: string := ".github"

  /** The message `logging.info` receives for one match. */
  function LogRecord(org: string, repo: string, url: string): string
  {
    org + "/" + repo + ": " + url
  }

  // ---------------------------------------------------------------------------
  // Whitespace trimming, as Python's `str.strip()` with no argument

  /** The characters for which Python's `str.isspace` is true. */
  predicate IsSpace(c: char)
  {
    c == ' ' || '\t' <= c <= '\r' || '\U{1c}' <= c <= '\U{1f}' || c == '\U{85}' || c == '\U{a0}'
    || c == '\U{1680}' || '\U{2000}' <= c <= '\U{200a}' || c == '\U{2028}' || c == '\U{2029}'
    || c == '\U{202f}' || c == '\U{205f}' || c == '\U{3000}'
  }

  /** `s` without its leading whitespace. */
  function TrimStart(s: string): string
  {
    if s != [] && IsSpace(s[0]) then TrimStart(s[1..]) else s
  }

  /** `s` without its trailing whitespace. */
  function TrimEnd(s: string): string
  {
    if s != [] && IsSpace(s[|s| - 1]) then TrimEnd(s[..|s| - 1]) else s
  }

  /** Trimming the start drops a run of whitespace from the front and stops at the first other character. */
  lemma {:induction false} TrimStartCuts(s: string)
    ensures |TrimStart(s)| <= |s| && TrimStart(s) == s[|s| - |TrimStart(s)|..]
    ensures forall k :: 0 <= k < |s| - |TrimStart(s)| ==> IsSpace(s[k])
    ensures TrimStart(s) == [] || !IsSpace(TrimStart(s)[0])
    decreases |s|
  {
    if s != [] && IsSpace(s[0]) {
      TrimStartCuts(s[1..]);
      var r := TrimStart(s[1..]);
      assert s[|s| - |r|..] == s[1..][|s| - 1 - |r|..];
      forall k | 0 <= k < |s| - |r|
        ensures IsSpace(s[k])
      {
        if k > 0 {
          assert s[k] == s[1..][k - 1];
        }
      }
    }
  }

  /** Trimming the end drops a run of whitespace from the back and stops at the last other character. */
  lemma {:induction false} TrimEndCuts(s: string)
    ensures |TrimEnd(s)| <= |s| && TrimEnd(s) == s[..|TrimEnd(s)|]
    ensures forall k :: |TrimEnd(s)| <= k < |s| ==> IsSpace(s[k])
    ensures TrimEnd(s) == [] || !IsSpace(TrimEnd(s)[|TrimEnd(s)| - 1])
    decreases |s|
  {
    if s != [] && IsSpace(s[|s| - 1]) {
      var t := s[..|s| - 1];
      TrimEndCuts(t);
      var r := TrimEnd(t);
      assert s[..|r|] == t[..|r|];
      forall k | |r| <= k < |s|
        ensures IsSpace(s[k])
      {
        if k < |s| - 1 {
          assert s[k] == t[k];
        }
      }
    }
  }

  /** `org.strip()`. */
  function Strip(s: string): string
  {
    TrimEnd(TrimStart(s))
  }

  /**
   * Stripping cuts only whitespace, and only at the two ends: the result is
   * a slice of `s`, and it neither starts nor ends with whitespace.
   */
  lemma StripIsSlice(s: string)
    ensures exists i, j :: 0 <= i <= j <= |s| && Strip(s) == s[i..j]
                        && (forall k :: 0 <= k < i ==> IsSpace(s[k]))
                        && (forall k :: j <= k < |s| ==> IsSpace(s[k]))
    ensures Strip(s) == [] || (!IsSpace(Strip(s)[0]) && !IsSpace(Strip(s)[|Strip(s)| - 1]))
  {
    var t := TrimStart(s);
    TrimStartCuts(s);
    TrimEndCuts(t);
    var r := TrimEnd(t);
    var i := |s| - |t|;
    assert r == s[i..i + |r|];
    forall k | i + |r| <= k < |s|
      ensures IsSpace(s[k])
    {
      assert s[k] == t[k - i];
    }
    if r != [] {
      assert r[0] == t[0];
    }
  }

  /** A string with no whitespace at either end is left as it is, so stripping twice is stripping once. */
  lemma StripTrimmed(s: string)
    requires s == [] || (!IsSpace(s[0]) && !IsSpace(s[|s| - 1]))
    ensures Strip(s) == s
    ensures Strip(Strip(s)) == Strip(s)
  {
  }

  /** Stripping twice is stripping once. */
  lemma StripIdempotent(s: string)
    ensures Strip(Strip(s)) == Strip(s)
  {
    StripIsSlice(s);
    StripTrimmed(Strip(s));
  }

  // ---------------------------------------------------------------------------
  // What one organization's scan reports

  function Names(nodes: seq<RepoNode>): seq<string>
  {
    if nodes == [] then [] else [nodes[0].name] + Names(nodes[1..])
  }

  /** The repositories reported as empty (size 0); they are scanned all the same. */
  function EmptyRepos(org: string, nodes: seq<RepoNode>, remote: Remote): seq<string>
  {
    if nodes == [] then []
    else (if remote.sizes(org, nodes[0].name) == Some(0) then [nodes[0].name] else [])
         + EmptyRepos(org, nodes[1..], remote)
  }

  /**
   * The "empty, skipping" notice does not skip: every repository reported
   * empty is among the scanned ones.
   */
  lemma {:induction false} EmptyReposAreScanned(org: string, nodes: seq<RepoNode>, remote: Remote, name: string)
    requires name in EmptyRepos(org, nodes, remote)
    ensures name in Names(nodes)
    ensures exists k :: 0 <= k < |nodes| && nodes[k].name == name && remote.sizes(org, name) == Some(0)
    decreases |nodes|
  {
    if name != nodes[0].name || remote.sizes(org, name) != Some(0) {
      EmptyReposAreScanned(org, nodes[1..], remote, name);
      var k :| 0 <= k < |nodes[1..]| && nodes[1..][k].name == name && remote.sizes(org, name) == Some(0);
      assert nodes[k + 1].name == name;
    } else {
      assert nodes[0].name == name;
    }
  }

  lemma {:induction false} NamesAppend(a: seq<RepoNode>, b: seq<RepoNode>)
    ensures Names(a + b) == Names(a) + Names(b)
    decreases |a|
  {
    if a == [] {
      assert a + b == b;
    } else {
      assert (a + b)[1..] == a[1..] + b;
      NamesAppend(a[1..], b);
    }
  }

  function LogRecords(org: string, repo: string, urls: seq<string>): seq<string>
  {
    if urls == [] then [] else [LogRecord(org, repo, urls[0])] + LogRecords(org, repo, urls[1..])
  }

  lemma {:induction false} LogRecordsAt(org: string, repo: string, urls: seq<string>, rec: string)
    requires rec in LogRecords(org, repo, urls)
    ensures exists url :: url in urls && rec == LogRecord(org, repo, url)
    decreases |urls|
  {
    if rec != LogRecord(org, repo, urls[0]) {
      LogRecordsAt(org, repo, urls[1..], rec);
    }
  }

  lemma {:induction false} LogRecordsSnoc(org: string, repo: string, urls: seq<string>, url: string)
    ensures LogRecords(org, repo, urls + [url]) == LogRecords(org, repo, urls) + [LogRecord(org, repo, url)]
    decreases |urls|
  {
    if urls == [] {
      assert urls + [url] == [url];
    } else {
      assert (urls + [url])[1..] == urls[1..] + [url];
      LogRecordsSnoc(org, repo, urls[1..], url);
    }
  }

  /** The log records for the repositories `nodes`, each walked from ".github". */
  function RepoLog(org: string, nodes: seq<RepoNode>, remote: Remote, targets: seq<string>): seq<string>
  {
    if nodes == [] then []
    else LogRecords(org, nodes[0].name, Walk(remote.trees(org, nodes[0].name), targets))
         + RepoLog(org, nodes[1..], remote, targets)
  }

  lemma {:induction false} RepoLogAppend(org: string, a: seq<RepoNode>, b: seq<RepoNode>,
                                         remote: Remote, targets: seq<string>)
    ensures RepoLog(org, a + b, remote, targets) == RepoLog(org, a, remote, targets) + RepoLog(org, b, remote, targets)
    decreases |a|
  {
    if a == [] {
      assert a + b == b;
    } else {
      assert (a + b)[1..] == a[1..] + b;
      RepoLogAppend(org, a[1..], b, remote, targets);
    }
  }

  lemma {:induction false} EmptyReposAppend(org: string, a: seq<RepoNode>, b: seq<RepoNode>, remote: Remote)
    ensures EmptyRepos(org, a + b, remote) == EmptyRepos(org, a, remote) + EmptyRepos(org, b, remote)
    decreases |a|
  {
    if a == [] {
      assert a + b == b;
    } else {
      assert (a + b)[1..] == a[1..] + b;
      EmptyReposAppend(org, a[1..], b, remote);
    }
  }

  /**
   * Every log record names the organization, a visited repository and a URL
   * its walk reported.
   */
  lemma {:induction false} LogRecordsAreMatches(org: string, nodes: seq<RepoNode>, remote: Remote,
                                                targets: seq<string>, rec: string)
    requires rec in RepoLog(org, nodes, remote, targets)
    ensures exists k, url :: 0 <= k < |nodes| && url in Walk(remote.trees(org, nodes[k].name), targets)
                             && rec == LogRecord(org, nodes[k].name, url)
    decreases |nodes|
  {
    var urls := Walk(remote.trees(org, nodes[0].name), targets);
    var head := LogRecords(org, nodes[0].name, urls);
    if rec in head {
      LogRecordsAt(org, nodes[0].name, urls, rec);
    } else {
      LogRecordsAreMatches(org, nodes[1..], remote, targets, rec);
      var k, url :| 0 <= k < |nodes[1..]| && url in Walk(remote.trees(org, nodes[1..][k].name), targets)
                    && rec == LogRecord(org, nodes[1..][k].name, url);
      assert nodes[1..][k] == nodes[k + 1];
    }
  }

  // ---------------------------------------------------------------------------
  // The loops

  /** What one more node adds to each output. */
  lemma OneMoreNode(org: string, done: seq<RepoNode>, node: RepoNode, remote: Remote, targets: seq<string>)
    ensures Names(done + [node]) == Names(done) + [node.name]
    ensures EmptyRepos(org, done + [node], remote)
         == EmptyRepos(org, done, remote) + if remote.sizes(org, node.name) == Some(0) then [node.name] else []
    ensures RepoLog(org, done + [node], remote, targets)
         == RepoLog(org, done, remote, targets)
            + LogRecords(org, node.name, Walk(remote.trees(org, node.name), targets))
  {
    NamesAppend(done, [node]);
    EmptyReposAppend(org, done, [node], remote);
    RepoLogAppend(org, done, [node], remote, targets);
  }

  /** What one more page of nodes adds to each output. */
  lemma OnePage(org: string, visited: seq<RepoNode>, page: seq<RepoNode>, remote: Remote, targets: seq<string>)
    ensures Names(visited + page) == Names(visited) + Names(page)
    ensures EmptyRepos(org, visited + page, remote) == EmptyRepos(org, visited, remote) + EmptyRepos(org, page, remote)
    ensures RepoLog(org, visited + page, remote, targets)
         == RepoLog(org, visited, remote, targets) + RepoLog(org, page, remote, targets)
  {
    NamesAppend(visited, page);
    EmptyReposAppend(org, visited, page, remote);
    RepoLogAppend(org, visited, page, remote, targets);
  }

  /**
   * The body of the loop over `nodes` for one repository: ask for its size
   * (a size of 0 only prints the "empty, skipping" notice), walk ".github",
   * and log each match in the order the walk reported it.
   */
  method ScanRepository(org: string, repoName: string, remote: Remote, targets: seq<string>)
    returns (reportedEmpty: bool, records: seq<string>)
    ensures reportedEmpty <==> remote.sizes(org, repoName) == Some(0)
    ensures records == LogRecords(org, repoName, Walk(remote.trees(org, repoName), targets))
  {
    var size := remote.sizes(org, repoName);
    reportedEmpty := size == Some(0);
    var matchedFiles, _ := SearchInDirectory(RootDir, remote.trees(org, repoName), targets);
    records := [];
    for j := 0 to |matchedFiles|
      invariant records == LogRecords(org, repoName, matchedFiles[..j])
    {
      assert matchedFiles[..j + 1] == matchedFiles[..j] + [matchedFiles[j]];
      LogRecordsSnoc(org, repoName, matchedFiles[..j], matchedFiles[j]);
      records := records + [LogRecord(org, repoName, matchedFiles[j])];
    }
    assert matchedFiles[..|matchedFiles|] == matchedFiles;
  }

  /** The loop over one page's `nodes`. */
  method ScanRepositories(org: string, nodes: seq<RepoNode>, remote: Remote, targets: seq<string>)
    returns (scanned: seq<string>, emptyNotices: seq<string>, log: seq<string>)
    ensures scanned == Names(nodes)
    ensures emptyNotices == EmptyRepos(org, nodes, remote)
    ensures log == RepoLog(org, nodes, remote, targets)
  {
    scanned, emptyNotices, log := [], [], [];
    var rest := nodes;
    ghost var done: seq<RepoNode> := [];
    while rest != []
      invariant done + rest == nodes
      invariant scanned == Names(done)
      invariant emptyNotices == EmptyRepos(org, done, remote)
      invariant log == RepoLog(org, done, remote, targets)
      decreases |rest|
    {
      var node := rest[0];
      var reportedEmpty, records := ScanRepository(org, node.name, remote, targets);
      emptyNotices := emptyNotices + if reportedEmpty then [node.name] else [];
      scanned := scanned + [node.name];
      log := log + records;
      OneMoreNode(org, done, node, remote, targets);
      done := done + [node];
      rest := rest[1..];
    }
    assert done == nodes;
  }

  /**
   * The paging loop for one organization, given the responses the backend
   * sends in turn. It returns whether the run raised, the cursor sent with
   * each query, the repositories scanned, those reported empty, and the log.
   */
  method ScanOrganization(org: string, responses: seq<Response>, remote: Remote, targets: seq<string>)
    returns (crashed: bool, cursors: seq<Option<string>>, scanned: seq<string>,
             emptyNotices: seq<string>, log: seq<string>)
    requires Stops(responses)
    ensures |cursors| == Fetched(responses) && CursorsChained(responses, cursors)
    ensures crashed == Crashed(responses)
    ensures scanned == Names(Visited(responses))
    ensures emptyNotices == EmptyRepos(org, Visited(responses), remote)
    ensures log == RepoLog(org, Visited(responses), remote, targets)
  {
    crashed, cursors, scanned, emptyNotices, log := false, [], [], [], [];
    var cursor: Option<string> := None;
    var hasNextPage := true;
    var k := 0;
    ghost var visited: seq<RepoNode> := [];
    ghost var page: Response := Response(Absent);
    while hasNextPage
      invariant 0 <= k <= |responses| && |cursors| == k
      invariant CursorsChained(responses, cursors)
      invariant k == 0 ==> cursor == None && hasNextPage
      invariant k > 0 ==> page == responses[k - 1]
      invariant k > 0 ==> (hasNextPage <==> Continues(page))
      invariant hasNextPage && k > 0 ==> cursor == EndOf(page).value.endCursor
      invariant crashed <==> k > 0 && !WellFormed(page)
      invariant hasNextPage ==> Stops(responses[k..])
      invariant visited == AllNodes(responses[..k])
      invariant scanned == Names(visited)
      invariant emptyNotices == EmptyRepos(org, visited, remote)
      invariant log == RepoLog(org, visited, remote, targets)
      decreases |responses| - k, hasNextPage
    {
      NextPage(responses, k);
      var response := responses[k];
      CursorsExtend(responses, cursors, cursor);
      cursors := cursors + [cursor];
      var pageScanned, pageEmpty, pageLog, end := ScanPage(org, response, remote, targets);
      scanned := scanned + pageScanned;
      emptyNotices := emptyNotices + pageEmpty;
      log := log + pageLog;
      OnePage(org, visited, PageNodes(response), remote, targets);
      visited := visited + PageNodes(response);
      crashed := end.None?;
      hasNextPage := end.Some? && end.value.hasNextPage;
      cursor := if hasNextPage then end.value.endCursor else cursor;
      page := response;
      k := k + 1;
    }
    PagingVisitsAllPages(responses, k - 1);
  }

  /**
   * One pass of the `while hasNextPage` body: scan the page's repositories,
   * then read how the page ends. `end` is None exactly when the page raises;
   * otherwise it asks for another page exactly when the page continues, with
   * that page's `endCursor`.
   */
  method ScanPage(org: string, response: Response, remote: Remote, targets: seq<string>)
    returns (scanned: seq<string>, emptyNotices: seq<string>, log: seq<string>, end: Option<PageEnd>)
    ensures scanned == Names(PageNodes(response))
    ensures emptyNotices == EmptyRepos(org, PageNodes(response), remote)
    ensures log == RepoLog(org, PageNodes(response), remote, targets)
    ensures end.None? <==> !WellFormed(response)
    ensures end.Some? && end.value.hasNextPage <==> Continues(response)
    ensures Continues(response) ==> end.value.endCursor == EndOf(response).value.endCursor
  {
    // A page whose `nodes` cannot be read raises before the node loop, so it visits nothing.
    var nodes := NodesOf(response);
    var pageNodes := if nodes.Some? then nodes.value else [];
    scanned, emptyNotices, log := ScanRepositories(org, pageNodes, remote, targets);
    // Reading `pageInfo` raises when it, or anything before it, is null.
    end := if nodes.Some? then EndOf(response) else None;
  }

  /** The scan of organization `org`, once stripped, ends the paging loop. */
  predicate OrgStops(org: string, remote: Remote)
  {
    Stops(remote.pages(Strip(org)))
  }

  /** The scan of organization `org`, once stripped, raises. */
  predicate OrgCrashes(org: string, remote: Remote)
  {
    Crashed(remote.pages(Strip(org)))
  }

  /** What the scan of organization `org`, once stripped, logs. */
  function OrgLog(org: string, remote: Remote, targets: seq<string>): seq<string>
  {
    var name := Strip(org);
    RepoLog(name, Visited(remote.pages(name)), remote, targets)
  }

  /**
   * The log of a whole run over `orgs`: each organization, stripped of
   * surrounding whitespace, in turn, until one of them raises.
   */
  function RunLog(orgs: seq<string>, remote: Remote, targets: seq<string>): seq<string>
  {
    if orgs == [] then []
    else OrgLog(orgs[0], remote, targets)
         + if OrgCrashes(orgs[0], remote) then [] else RunLog(orgs[1..], remote, targets)
  }

  /**
   * The responses of every organization the run reaches end the paging loop;
   * organizations after the first one that raises are never queried.
   */
  predicate ReachedStop(orgs: seq<string>, remote: Remote)
  {
    orgs != [] ==> OrgStops(orgs[0], remote) && (!OrgCrashes(orgs[0], remote) ==> ReachedStop(orgs[1..], remote))
  }

  /** How many organizations the run completes before the first one that raises. */
  function Completed(orgs: seq<string>, remote: Remote): nat
  {
    if orgs == [] || OrgCrashes(orgs[0], remote) then 0 else 1 + Completed(orgs[1..], remote)
  }

  /**
   * The run completes the organizations before the first one that raises and
   * stops at that one: every organization before `Completed` ends normally, and
   * the one at `Completed`, if any, raises.
   */
  lemma {:induction false} CompletedStopsAtFirstCrash(orgs: seq<string>, remote: Remote)
    ensures Completed(orgs, remote) <= |orgs|
    ensures forall i :: 0 <= i < Completed(orgs, remote) ==> !OrgCrashes(orgs[i], remote)
    ensures Completed(orgs, remote) < |orgs| ==> OrgCrashes(orgs[Completed(orgs, remote)], remote)
  {
    if orgs != [] && !OrgCrashes(orgs[0], remote) {
      CompletedStopsAtFirstCrash(orgs[1..], remote);
      forall i | 0 <= i < Completed(orgs, remote)
        ensures !OrgCrashes(orgs[i], remote)
      {
        if i > 0 {
          assert orgs[i] == orgs[1..][i - 1];
        }
      }
      if Completed(orgs, remote) < |orgs| {
        assert orgs[Completed(orgs, remote)] == orgs[1..][Completed(orgs[1..], remote)];
      }
    }
  }

  /** The organization the run reaches next ends the paging loop. */
  lemma NextReached(orgs: seq<string>, k: nat, remote: Remote)
    requires k < |orgs| && ReachedStop(orgs[k..], remote)
    ensures OrgStops(orgs[k], remote)
  {
    assert orgs[k..][0] == orgs[k];
  }

  /**
   * One more organization: its log comes after what the run logged so far; the
   * run ends there if it raised, and goes on with the next organization if not.
   */
  lemma RunStep(orgs: seq<string>, k: nat, log: seq<string>, remote: Remote, targets: seq<string>,
                orgCrashed: bool, orgLog: seq<string>)
    requires k < |orgs|
    requires Completed(orgs, remote) == k + Completed(orgs[k..], remote)
    requires ReachedStop(orgs[k..], remote)
    requires RunLog(orgs, remote, targets) == log + RunLog(orgs[k..], remote, targets)
    requires orgCrashed == OrgCrashes(orgs[k], remote) && orgLog == OrgLog(orgs[k], remote, targets)
    ensures orgCrashed ==> Completed(orgs, remote) == k && RunLog(orgs, remote, targets) == log + orgLog
    ensures !orgCrashed ==> Completed(orgs, remote) == k + 1 + Completed(orgs[k + 1..], remote)
    ensures !orgCrashed ==> ReachedStop(orgs[k + 1..], remote)
    ensures !orgCrashed ==> RunLog(orgs, remote, targets) == log + orgLog + RunLog(orgs[k + 1..], remote, targets)
  {
    var rest := orgs[k..];
    assert rest[0] == orgs[k] && rest[1..] == orgs[k + 1..];
    assert RunLog(rest, remote, targets)
        == orgLog + if orgCrashed then [] else RunLog(rest[1..], remote, targets);
    if orgCrashed {
      assert orgLog + [] == orgLog;
    }
  }

  /** The body of the loop over organizations: strip the name, then page through its repositories. */
  method RunOrganization(org: string, remote: Remote, targets: seq<string>) returns (crashed: bool, log: seq<string>)
    requires OrgStops(org, remote)
    ensures crashed == OrgCrashes(org, remote)
    ensures log == OrgLog(org, remote, targets)
  {
    var name := Strip(org);
    var orgCrashed, _, _, _, orgLog := ScanOrganization(name, remote.pages(name), remote, targets);
    crashed, log := orgCrashed, orgLog;
  }

  /**
   * `main(orgs, url, token, strings)`: scan each organization in turn. A run
   * that raises stops there; `completed` is the number of organizations whose
   * scan ended normally ("no more repositories").
   */
  method ScanOrganizations(orgs: seq<string>, remote: Remote, targets: seq<string>)
    returns (crashed: bool, completed: nat, log: seq<string>)
    requires ReachedStop(orgs, remote)
    ensures completed == Completed(orgs, remote)
    ensures crashed <==> completed < |orgs|
    ensures log == RunLog(orgs, remote, targets)
  {
    crashed, completed, log := false, 0, [];
    while completed < |orgs| && !crashed
      invariant completed <= |orgs|
      invariant crashed ==> completed < |orgs| && Completed(orgs, remote) == completed
      invariant crashed ==> RunLog(orgs, remote, targets) == log
      invariant !crashed ==> Completed(orgs, remote) == completed + Completed(orgs[completed..], remote)
      invariant !crashed ==> ReachedStop(orgs[completed..], remote)
      invariant !crashed ==> RunLog(orgs, remote, targets) == log + RunLog(orgs[completed..], remote, targets)
      decreases |orgs| - completed, !crashed
    {
      NextReached(orgs, completed, remote);
      var orgCrashed, orgLog := RunOrganization(orgs[completed], remote, targets);
      RunStep(orgs, completed, log, remote, targets, orgCrashed, orgLog);
      log := log + orgLog;
      crashed := orgCrashed;
      if !orgCrashed {
        completed := completed + 1;
      }
    }
    if !crashed {
      assert orgs[completed..] == [];
    }
  }


  /**
   * Organization "acme" has one repository "infra" whose ".github" directory
   * is the one of `AcmeWorkflows`: the run logs exactly one record, for
   * "ci.yml".
   */
  lemma AcmeScenario(remote: Remote, ciUrl: string, ciHtml: string, lintUrl: string, lintHtml: string)
    requires remote.pages("acme") == [LastPage([RepoNode("R_1", "infra")])]
    requires remote.trees("acme", "infra") == AcmeGithubDir(ciUrl, ciHtml, lintUrl, lintHtml)
    ensures RunLog(["acme"], remote, [UploadArtifact]) == ["acme/infra: " + ciHtml]
  {
    SingleLastPage([RepoNode("R_1", "infra")]);
    StripTrimmed("acme");
    SingleOrganization("acme", remote, [UploadArtifact]);
    AcmeRepoLog(remote, ciUrl, ciHtml, lintUrl, lintHtml);
  }

  /** A run over one organization logs what that organization's scan logs. */
  lemma SingleOrganization(org: string, remote: Remote, targets: seq<string>)
    ensures RunLog([org], remote, targets) == RepoLog(Strip(org), Visited(remote.pages(Strip(org))), remote, targets)
  {
    assert [org][1..] == [];
  }

  lemma AcmeRepoLog(remote: Remote, ciUrl: string, ciHtml: string, lintUrl: string, lintHtml: string)
    requires remote.trees("acme", "infra") == AcmeGithubDir(ciUrl, ciHtml, lintUrl, lintHtml)
    ensures RepoLog("acme", [RepoNode("R_1", "infra")], remote, [UploadArtifact]) == ["acme/infra: " + ciHtml]
  {
    AcmeWorkflows(ciUrl, ciHtml, lintUrl, lintHtml);
    assert LogRecords("acme", "infra", [ciHtml]) == [LogRecord("acme", "infra", ciHtml)];
    assert "acme" + "/" + "infra" + ": " == "acme/infra: ";
  }
}
