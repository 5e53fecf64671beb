/**
 * The directory walker, `search_in_directory`. The remote repository is a
 * finite tree of directory listings: each `Dir` entry carries the response to
 * the listing request for its path, and each `File` entry the response to its
 * content request, already base64- and UTF-8-decoded.
 */
module DirectoryWalk {
  import opened Wrappers
  import opened ContentMatch

  /** One item of a contents listing, by its "type" field. */
  datatype Entry =
    | File(name: string, url: string, htmlUrl: string, content: Option<string>)
      // content == None: the content request did not answer 200
    | Dir(path: string, listing: Listing)
    | Other(kind: string)
      // "symlink", "submodule": neither branch of the source's if/elif applies

  /** The response to a contents request for one directory. */
  datatype Listing =
    | Listed(entries: seq<Entry>)  // status 200
    | NotFound                     // status 404
    | Failed                       // any status other than 200 and 404

  /** A request the walker sends: a directory listing or a file's content. */
  datatype Request = ListDir(path: string) | GetFile(url: string)

  predicate EndsWith(s: string, suffix: string)
  {
    |suffix| <= |s| && s[|s| - |suffix|..] == suffix
  }

  /** Only ".yml" and ".yaml" files are fetched and searched. */
  predicate IsConfigFile(name: string)
  {
    EndsWith(name, ".yml") || EndsWith(name, ".yaml")
  }

  /** A file entry the walker reports: eligible, fetched with 200, and matching. */
  predicate Hit(e: Entry, targets: seq<string>)
  {
    e.File? && IsConfigFile(e.name) && e.content.Some? && Matches(e.content.value, targets)
  }

  // ---------------------------------------------------------------------------
  // The walk, as a specification over the tree

  /** The URLs the walk reports for a directory whose listing request got `listing`. */
  function Walk(listing: Listing, targets: seq<string>): seq<string>
    decreases listing
  {
    match listing
    case Listed(entries) => WalkEntries(entries, targets)
    case NotFound => []
    case Failed => []
  }

  function WalkEntries(entries: seq<Entry>, targets: seq<string>): seq<string>
    decreases entries
  {
    if entries == [] then []
    else Contribution(entries[0], targets) + WalkEntries(entries[1..], targets)
  }

  /** What one entry adds to the result, at its own position. */
  function Contribution(e: Entry, targets: seq<string>): seq<string>
    decreases e
  {
    match e
    case File(_, _, htmlUrl, _) => if Hit(e, targets) then [htmlUrl] else []
    case Dir(_, listing) => Walk(listing, targets)
    case Other(_) => []
  }

  /** The requests the walk of `path` sends, in order. */
  function Trace(path: string, listing: Listing): seq<Request>
    decreases listing
  {
    [ListDir(path)] + match listing
                      case Listed(entries) => TraceEntries(entries)
                      case NotFound => []
                      case Failed => []
  }

  function TraceEntries(entries: seq<Entry>): seq<Request>
    decreases entries
  {
    if entries == [] then []
    else EntryTrace(entries[0]) + TraceEntries(entries[1..])
  }

  function EntryTrace(e: Entry): seq<Request>
    decreases e
  {
    match e
    case File(name, url, _, _) => if IsConfigFile(name) then [GetFile(url)] else []
    case Dir(path, listing) => Trace(path, listing)
    case Other(_) => []
  }

  // ---------------------------------------------------------------------------
  // An independent view: the flat list of files the tree holds

  /** Every file entry reachable through listings that answered 200, in listing order. */
  function Files(listing: Listing): (fs: seq<Entry>)
    ensures forall f :: f in fs ==> f.File?
    decreases listing
  {
    match listing
    case Listed(entries) => FilesOfEntries(entries)
    case NotFound => []
    case Failed => []
  }

  function FilesOfEntries(entries: seq<Entry>): (fs: seq<Entry>)
    ensures forall f :: f in fs ==> f.File?
    decreases entries
  {
    if entries == [] then []
    else FilesOf(entries[0]) + FilesOfEntries(entries[1..])
  }

  function FilesOf(e: Entry): (fs: seq<Entry>)
    ensures forall f :: f in fs ==> f.File?
    decreases e
  {
    match e
    case File(_, _, _, _) => [e]
    case Dir(_, listing) => Files(listing)
    case Other(_) => []
  }

  /** The report URLs of the hits among `fs`, in order. */
  function HitUrls(fs: seq<Entry>, targets: seq<string>): seq<string>
  {
    if fs == [] then []
    else (if Hit(fs[0], targets) then [fs[0].htmlUrl] else []) + HitUrls(fs[1..], targets)
  }

  /** The content URLs of the ".yml"/".yaml" files among `fs`, in order. */
  function ConfigFileUrls(fs: seq<Entry>): seq<string>
  {
    if fs == [] then []
    else (if fs[0].File? && IsConfigFile(fs[0].name) then [fs[0].url] else [])
         + ConfigFileUrls(fs[1..])
  }

  /** The content fetches among `rs`, in order. */
  function Fetches(rs: seq<Request>): seq<string>
  {
    if rs == [] then []
    else (if rs[0].GetFile? then [rs[0].url] else []) + Fetches(rs[1..])
  }

  // ---------------------------------------------------------------------------
  // Concatenation

  lemma {:induction false} WalkEntriesAppend(a: seq<Entry>, b: seq<Entry>, targets: seq<string>)
    ensures WalkEntries(a + b, targets) == WalkEntries(a, targets) + WalkEntries(b, targets)
    decreases |a|
  {
    if a == [] {
      assert a + b == b;
    } else {
      assert (a + b)[1..] == a[1..] + b;
      WalkEntriesAppend(a[1..], b, targets);
    }
  }

  lemma {:induction false} TraceEntriesAppend(a: seq<Entry>, b: seq<Entry>)
    ensures TraceEntries(a + b) == TraceEntries(a) + TraceEntries(b)
    decreases |a|
  {
    if a == [] {
      assert a + b == b;
    } else {
      assert (a + b)[1..] == a[1..] + b;
      TraceEntriesAppend(a[1..], b);
    }
  }

  lemma {:induction false} HitUrlsAppend(a: seq<Entry>, b: seq<Entry>, targets: seq<string>)
    ensures HitUrls(a + b, targets) == HitUrls(a, targets) + HitUrls(b, targets)
    decreases |a|
  {
    if a == [] {
      assert a + b == b;
    } else {
      assert (a + b)[1..] == a[1..] + b;
      HitUrlsAppend(a[1..], b, targets);
    }
  }

  lemma {:induction false} ConfigFileUrlsAppend(a: seq<Entry>, b: seq<Entry>)
    ensures ConfigFileUrls(a + b) == ConfigFileUrls(a) + ConfigFileUrls(b)
    decreases |a|
  {
    if a == [] {
      assert a + b == b;
    } else {
      assert (a + b)[1..] == a[1..] + b;
      ConfigFileUrlsAppend(a[1..], b);
    }
  }

  lemma {:induction false} FetchesAppend(a: seq<Request>, b: seq<Request>)
    ensures Fetches(a + b) == Fetches(a) + Fetches(b)
    decreases |a|
  {
    if a == [] {
      assert a + b == b;
    } else {
      assert (a + b)[0] == a[0] && (a + b)[1..] == a[1..] + b;
      FetchesAppend(a[1..], b);
    }
  }

  /** One more entry of a listing: its contribution and its requests come after those before it. */
  lemma EntriesStep(entries: seq<Entry>, i: nat, targets: seq<string>)
    requires i < |entries|
    ensures WalkEntries(entries[..i + 1], targets)
         == WalkEntries(entries[..i], targets) + Contribution(entries[i], targets)
    ensures TraceEntries(entries[..i + 1]) == TraceEntries(entries[..i]) + EntryTrace(entries[i])
  {
    var item := entries[i];
    assert entries[..i + 1] == entries[..i] + [item];
    WalkEntriesAppend(entries[..i], [item], targets);
    TraceEntriesAppend(entries[..i], [item]);
    assert WalkEntries([item], targets) == Contribution(item, targets) + WalkEntries([], targets);
    assert TraceEntries([item]) == EntryTrace(item) + TraceEntries([]);
  }

  /**
   * Listing order is kept: the result for a run of entries is the results for
   * the entries one by one, each at its own position.
   */
  lemma OrderPreserved(a: seq<Entry>, e: Entry, b: seq<Entry>, targets: seq<string>)
    ensures WalkEntries(a + [e] + b, targets)
         == WalkEntries(a, targets) + Contribution(e, targets) + WalkEntries(b, targets)
  {
    WalkEntriesAppend(a + [e], b, targets);
    WalkEntriesAppend(a, [e], targets);
    assert WalkEntries([e], targets) == Contribution(e, targets) + WalkEntries([], targets);
  }

  /**
   * A subdirectory whose listing answered 404 or another non-200 status adds
   * nothing and costs only its own listing request; its siblings are unaffected.
   */
  lemma UnavailableDirIsolated(a: seq<Entry>, path: string, listing: Listing, b: seq<Entry>,
                               targets: seq<string>)
    requires !listing.Listed?
    ensures WalkEntries(a + [Dir(path, listing)] + b, targets)
         == WalkEntries(a, targets) + WalkEntries(b, targets)
    ensures TraceEntries(a + [Dir(path, listing)] + b)
         == TraceEntries(a) + [ListDir(path)] + TraceEntries(b)
  {
    OrderPreserved(a, Dir(path, listing), b, targets);
    TraceEntriesAppend(a + [Dir(path, listing)], b);
    TraceEntriesAppend(a, [Dir(path, listing)]);
    assert Trace(path, listing) == [ListDir(path)];
    assert TraceEntries([Dir(path, listing)]) == EntryTrace(Dir(path, listing)) + TraceEntries([]);
  }

  /**
   * A file whose name ends in neither ".yml" nor ".yaml" adds nothing and
   * is never fetched: the requests around it are those of its siblings alone.
   */
  lemma NonConfigFileSkipped(a: seq<Entry>, f: Entry, b: seq<Entry>, targets: seq<string>)
    requires f.File? && !IsConfigFile(f.name)
    ensures WalkEntries(a + [f] + b, targets) == WalkEntries(a, targets) + WalkEntries(b, targets)
    ensures TraceEntries(a + [f] + b) == TraceEntries(a) + TraceEntries(b)
  {
    OrderPreserved(a, f, b, targets);
    TraceEntriesAppend(a + [f], b);
    TraceEntriesAppend(a, [f]);
    assert TraceEntries([f]) == EntryTrace(f) + TraceEntries([]);
  }

  // ---------------------------------------------------------------------------
  // The walk against the flat list of files

  lemma {:induction false} WalkIsHitsOfFiles(listing: Listing, targets: seq<string>)
    ensures Walk(listing, targets) == HitUrls(Files(listing), targets)
    decreases listing
  {
    match listing
    case Listed(entries) => WalkEntriesIsHitsOfFiles(entries, targets);
    case NotFound =>
    case Failed =>
  }

  lemma {:induction false} WalkEntriesIsHitsOfFiles(entries: seq<Entry>, targets: seq<string>)
    ensures WalkEntries(entries, targets) == HitUrls(FilesOfEntries(entries), targets)
    decreases entries
  {
    if entries != [] {
      var e := entries[0];
      WalkEntriesIsHitsOfFiles(entries[1..], targets);
      HitUrlsAppend(FilesOf(e), FilesOfEntries(entries[1..]), targets);
      match e
      case File(_, _, _, _) =>
        assert HitUrls([e], targets) == Contribution(e, targets) + HitUrls([], targets);
      case Dir(_, listing) => WalkIsHitsOfFiles(listing, targets);
      case Other(_) =>
    }
  }

  lemma {:induction false} FetchesAreConfigFiles(path: string, listing: Listing)
    ensures Fetches(Trace(path, listing)) == ConfigFileUrls(Files(listing))
    decreases listing
  {
    FetchesAppend([ListDir(path)], Trace(path, listing)[1..]);
    assert [ListDir(path)] + Trace(path, listing)[1..] == Trace(path, listing);
    match listing
    case Listed(entries) => FetchesOfEntriesAreConfigFiles(entries);
    case NotFound =>
    case Failed =>
  }

  lemma {:induction false} FetchesOfEntriesAreConfigFiles(entries: seq<Entry>)
    ensures Fetches(TraceEntries(entries)) == ConfigFileUrls(FilesOfEntries(entries))
    decreases entries
  {
    if entries != [] {
      var e := entries[0];
      FetchesOfEntriesAreConfigFiles(entries[1..]);
      FetchesAppend(EntryTrace(e), TraceEntries(entries[1..]));
      ConfigFileUrlsAppend(FilesOf(e), FilesOfEntries(entries[1..]));
      match e
      case File(name, url, _, _) =>
        assert ConfigFileUrls([e]) == (if IsConfigFile(name) then [url] else []) + ConfigFileUrls([]);
        if IsConfigFile(name) {
          assert Fetches([GetFile(url)]) == [url] + Fetches([]);
        }
      case Dir(path, listing) => FetchesAreConfigFiles(path, listing);
      case Other(_) =>
    }
  }

  lemma {:induction false} HitUrlsMembership(fs: seq<Entry>, targets: seq<string>, u: string)
    ensures u in HitUrls(fs, targets) <==> exists f :: f in fs && Hit(f, targets) && f.htmlUrl == u
    decreases |fs|
  {
    if fs != [] {
      HitUrlsMembership(fs[1..], targets, u);
      assert forall f :: f in fs <==> f == fs[0] || f in fs[1..];
    }
  }

  /**
   * A URL is reported exactly when some file in the tree is a ".yml"/".yaml"
   * file whose content request succeeded, whose content matches, and whose
   * report URL it is.
   */
  lemma ReportedIffHit(listing: Listing, targets: seq<string>, u: string)
    ensures u in Walk(listing, targets)
        <==> exists f :: f in Files(listing) && Hit(f, targets) && f.htmlUrl == u
  {
    WalkIsHitsOfFiles(listing, targets);
    HitUrlsMembership(Files(listing), targets, u);
  }

  // ---------------------------------------------------------------------------
  // The walker itself

  /**
   * `search_in_directory(owner, repo, url, path, targets, token)`, where
   * `listing` is the response to the listing request for `path`. It returns
   * the matched report URLs and the requests it sent.
   */
  method SearchInDirectory(path: string, listing: Listing, targets: seq<string>)
    returns (matched: seq<string>, requests: seq<Request>)
    ensures matched == Walk(listing, targets)
    ensures requests == Trace(path, listing)
    decreases listing
  {
    requests := [ListDir(path)];
    matched := [];
    match listing {
      case Listed(entries) =>
        for i := 0 to |entries|
          invariant matched == WalkEntries(entries[..i], targets)
          invariant requests == [ListDir(path)] + TraceEntries(entries[..i])
        {
          var item := entries[i];
          match item {
            case File(name, url, htmlUrl, content) =>
              if IsConfigFile(name) {
                requests := requests + [GetFile(url)];
                if content.Some? {
                  var found := SearchInContent(content.value, targets);
                  if found {
                    matched := matched + [htmlUrl];
                  }
                }
              }
            case Dir(subPath, subListing) =>
              var subMatched, subRequests := SearchInDirectory(subPath, subListing, targets);
              matched := matched + subMatched;
              requests := requests + subRequests;
            case Other(_) =>
          }
          EntriesStep(entries, i, targets);
        }
        assert entries[..|entries|] == entries;
      case NotFound =>
      case Failed =>
    }
  }

  /**
   * The ".github" directory of the example repository: "workflows" holds
   * "ci.yml", which uses the artifact-upload action, and "lint.yaml", which
   * does not.
   */
  function AcmeGithubDir(ciUrl: string, ciHtml: string, lintUrl: string, lintHtml: string): Listing
  {
    Listed([Dir(".github/workflows", Listed([
      File("ci.yml", ciUrl, ciHtml, Some("uses: " + UploadArtifact + "@v3")),
      File("lint.yaml", lintUrl, lintHtml, Some("on: push"))]))])
  }

  /** Only "ci.yml" is reported, and both workflow files are fetched, in order. */
  lemma AcmeWorkflows(ciUrl: string, ciHtml: string, lintUrl: string, lintHtml: string)
    ensures Walk(AcmeGithubDir(ciUrl, ciHtml, lintUrl, lintHtml), [UploadArtifact]) == [ciHtml]
    ensures Fetches(Trace(".github", AcmeGithubDir(ciUrl, ciHtml, lintUrl, lintHtml))) == [ciUrl, lintUrl]
  {
    var github := AcmeGithubDir(ciUrl, ciHtml, lintUrl, lintHtml);
    var ci := File("ci.yml", ciUrl, ciHtml, Some("uses: " + UploadArtifact + "@v3"));
    var lint := File("lint.yaml", lintUrl, lintHtml, Some("on: push"));
    var workflows := Listed([ci, lint]);
    UploadArtifactExample();
    assert IsConfigFile("ci.yml") by { assert "ci.yml"[2..] == ".yml"; }
    assert IsConfigFile("lint.yaml") by { assert "lint.yaml"[4..] == ".yaml"; }
    assert Hit(ci, [UploadArtifact]) && !Hit(lint, [UploadArtifact]);
    assert github == Listed([Dir(".github/workflows", workflows)]);
    assert Files(github) == [ci, lint] by {
      assert FilesOfEntries([ci, lint]) == [ci] + FilesOfEntries([lint]);
      assert FilesOfEntries([lint]) == [lint] + FilesOfEntries([]);
      assert FilesOfEntries([Dir(".github/workflows", workflows)]) == Files(workflows) + FilesOfEntries([]);
    }
    WalkIsHitsOfFiles(github, [UploadArtifact]);
    assert HitUrls([ci, lint], [UploadArtifact]) == [ciHtml] + HitUrls([lint], [UploadArtifact]);
    assert HitUrls([lint], [UploadArtifact]) == [] + HitUrls([], [UploadArtifact]);
    FetchesAreConfigFiles(".github", github);
    assert ConfigFileUrls([ci, lint]) == [ciUrl] + ConfigFileUrls([lint]);
    assert ConfigFileUrls([lint]) == [lintUrl] + ConfigFileUrls([]);
  }
}
