/**
 * The repository-list responses of the GraphQL query and how the paging loop
 * of `main` reads them. Each level of the JSON is read with Python's
 * `dict.get(key, default)`: a missing key gives the default, but a key that
 * is present with the value null gives None, and the next `.get` on None (or
 * iterating over None) raises, which ends the whole run.
 */
module Paging {
  import opened Wrappers

  /** A JSON object field: missing, explicitly null, or a value. */
  datatype Field<T> = Absent | Null | Present(value: T)

  datatype RepoNode = RepoNode(id: string, name: string)
  datatype PageInfo = PageInfo(hasNextPage: Field<bool>, endCursor: Field<string>)
  datatype Repositories = Repositories(pageInfo: Field<PageInfo>, nodes: Field<seq<RepoNode>>)
  datatype Organization = Organization(repositories: Field<Repositories>)
  datatype QueryData = QueryData(organization: Field<Organization>)
  /** The decoded body of one GraphQL response. */
  datatype Response = Response(data: Field<QueryData>)

  /** How one page ends the loop body: the new `hasNextPage` and `cursor`. */
  datatype PageEnd = PageEnd(hasNextPage: bool, endCursor: Option<string>)

  /**
   * `obj.get(key, default)` where the next step uses the result as an object:
   * None (the step would raise) for an explicit null.
   */
  function Get<T>(f: Field<T>, default: T): Option<T>
  {
    match f
    case Absent => Some(default)
    case Null => None
    case Present(v) => Some(v)
  }

  /** `repositories` (main.py:108-109); None when a null on the way makes a `.get` raise. */
  function RepositoriesOf(r: Response): Option<Repositories>
  {
    var data :- Get(r.data, QueryData(Absent));
    var organization :- Get(data.organization, Organization(Absent));
    Get(organization.repositories, Repositories(Absent, Absent))
  }

  /** `nodes` (main.py:110); None when reading it, or iterating over it at main.py:113, raises. */
  function NodesOf(r: Response): Option<seq<RepoNode>>
  {
    var repositories :- RepositoriesOf(r);
    Get(repositories.nodes, [])
  }

  /** `hasNextPage` and `cursor` after the page (main.py:135-137); None when main.py:136 raises. */
  function EndOf(r: Response): Option<PageEnd>
  {
    var repositories :- RepositoriesOf(r);
    var pageInfo :- Get(repositories.pageInfo, PageInfo(Absent, Absent));
    Some(PageEnd(
      pageInfo.hasNextPage == Present(true),
      if pageInfo.endCursor.Present? then Some(pageInfo.endCursor.value) else None))
  }

  /** No field that the loop reads as an object or a list is an explicit null. */
  predicate NoNullOnPath(r: Response)
  {
    && !r.data.Null?
    && (r.data.Present? ==>
          var organization := r.data.value.organization;
          && !organization.Null?
          && (organization.Present? ==>
                var repositories := organization.value.repositories;
                && !repositories.Null?
                && (repositories.Present? ==>
                      !repositories.value.nodes.Null? && !repositories.value.pageInfo.Null?)))
  }

  /** The response is read without raising. */
  predicate WellFormed(r: Response)
  {
    NodesOf(r).Some? && EndOf(r).Some?
  }

  /** After this response the loop asks for another page. */
  predicate Continues(r: Response)
  {
    WellFormed(r) && EndOf(r).value.hasNextPage
  }

  /** Some response in `rs` ends the loop, normally or by raising. */
  predicate Stops(rs: seq<Response>)
  {
    |rs| > 0 && (!Continues(rs[0]) || Stops(rs[1..]))
  }

  /** The number of queries sent when the backend answers with `rs` in turn. */
  function Fetched(rs: seq<Response>): (n: nat)
    ensures Stops(rs) ==> 1 <= n <= |rs|
  {
    if rs == [] then 0
    else 1 + if Continues(rs[0]) then Fetched(rs[1..]) else 0
  }

  /** The repositories the node loop visits for one page: none when reading `nodes` raises. */
  function PageNodes(r: Response): seq<RepoNode>
  {
    if NodesOf(r).Some? then NodesOf(r).value else []
  }

  /**
   * The repositories the loop visits, in order: the node lists of the pages
   * from the first one on, so a prefix of all the pages' nodes.
   */
  function Visited(rs: seq<Response>): seq<RepoNode>
  {
    if rs == [] then []
    else PageNodes(rs[0]) + if Continues(rs[0]) then Visited(rs[1..]) else []
  }

  /** The loop ends by raising: exactly when the last page it fetches cannot be read. */
  predicate Crashed(rs: seq<Response>)
  {
    rs != [] && (!WellFormed(rs[0]) || (Continues(rs[0]) && Crashed(rs[1..])))
  }

  /** The node lists of `rs`, one after another, a missing list counting as empty. */
  function AllNodes(rs: seq<Response>): seq<RepoNode>
  {
    if rs == [] then []
    else PageNodes(rs[0]) + AllNodes(rs[1..])
  }

  lemma {:induction false} AllNodesSnoc(rs: seq<Response>, r: Response)
    ensures AllNodes(rs + [r]) == AllNodes(rs) + PageNodes(r)
    decreases |rs|
  {
    if rs == [] {
      assert rs + [r] == [r];
    } else {
      assert (rs + [r])[1..] == rs[1..] + [r];
      AllNodesSnoc(rs[1..], r);
    }
  }

  /**
   * `cursors` are the cursors of the first queries sent: the first query has
   * none, and each later one sends the `endCursor` of the page before it,
   * which asked for a next page.
   */
  predicate CursorsChained(rs: seq<Response>, cursors: seq<Option<string>>)
  {
    && |cursors| <= |rs|
    && (|cursors| > 0 ==> cursors[0] == None)
    && forall j :: 0 <= j < |cursors| - 1 ==>
         Continues(rs[j]) && cursors[j + 1] == EndOf(rs[j]).value.endCursor
  }

  /** Sending the next query with `cursor` keeps the cursors chained to the pages read. */
  lemma CursorsExtend(rs: seq<Response>, cursors: seq<Option<string>>, cursor: Option<string>)
    requires CursorsChained(rs, cursors) && |cursors| < |rs|
    requires |cursors| == 0 ==> cursor == None
    requires |cursors| > 0 ==>
      Continues(rs[|cursors| - 1]) && cursor == EndOf(rs[|cursors| - 1]).value.endCursor
    ensures CursorsChained(rs, cursors + [cursor])
  {
    var next := cursors + [cursor];
    forall j | 0 <= j < |next| - 1
      ensures Continues(rs[j]) && next[j + 1] == EndOf(rs[j]).value.endCursor
    {
      if j < |cursors| - 1 {
        assert next[j + 1] == cursors[j + 1];
      }
    }
  }

  /** Reading page k of a run that still stops: it exists, and its nodes extend the ones read so far. */
  lemma NextPage(rs: seq<Response>, k: nat)
    requires k <= |rs| && Stops(rs[k..])
    ensures k < |rs|
    ensures Continues(rs[k]) ==> Stops(rs[k + 1..])
    ensures AllNodes(rs[..k + 1]) == AllNodes(rs[..k]) + PageNodes(rs[k])
  {
    assert rs[k..][0] == rs[k] && rs[k..][1..] == rs[k + 1..];
    assert rs[..k + 1] == rs[..k] + [rs[k]];
    AllNodesSnoc(rs[..k], rs[k]);
  }

  /**
   * When pages 0 .. n-1 all say there is a next page and page n does not (or
   * cannot be read), the loop sends n + 1 queries, visits exactly the node
   * lists of pages 0 .. n in order, and raises exactly when page n cannot be
   * read.
   */
  lemma {:induction false} PagingVisitsAllPages(rs: seq<Response>, n: nat)
    requires n < |rs|
    requires forall i :: 0 <= i < n ==> Continues(rs[i])
    requires !Continues(rs[n])
    ensures Fetched(rs) == n + 1
    ensures Visited(rs) == AllNodes(rs[..n + 1])
    ensures Crashed(rs) == !WellFormed(rs[n])
    decreases n
  {
    var first := rs[..n + 1];
    assert first[1..] == rs[1..][..n];
    if n > 0 {
      PagingVisitsAllPages(rs[1..], n - 1);
    } else {
      assert first[1..] == [];
    }
  }

  /**
   * Reading `repositories` raises exactly when a null is met on the way down;
   * when every level is present it is that object, and a missing level reads
   * as an object with neither `nodes` nor `pageInfo`.
   */
  lemma ReadingRepositories(r: Response)
    ensures RepositoriesOf(r).None? <==>
      || r.data.Null?
      || (r.data.Present? && r.data.value.organization.Null?)
      || (r.data.Present? && r.data.value.organization.Present?
          && r.data.value.organization.value.repositories.Null?)
    ensures r.data.Present? && r.data.value.organization.Present?
            && r.data.value.organization.value.repositories.Present?
            ==> RepositoriesOf(r) == Some(r.data.value.organization.value.repositories.value)
    ensures r.data.Absent? || (r.data.Present? && r.data.value.organization.Absent?)
            || (r.data.Present? && r.data.value.organization.Present?
                && r.data.value.organization.value.repositories.Absent?)
            ==> RepositoriesOf(r) == Some(Repositories(Absent, Absent))
  {
  }

  /**
   * The page's node list: reading it raises when `repositories` cannot be
   * read or `nodes` is null, and a missing `nodes` is an empty list.
   */
  lemma ReadingNodes(r: Response)
    ensures NodesOf(r).None? <==> RepositoriesOf(r).None? || RepositoriesOf(r).value.nodes.Null?
    ensures RepositoriesOf(r).Some? && RepositoriesOf(r).value.nodes.Present?
            ==> NodesOf(r) == Some(RepositoriesOf(r).value.nodes.value)
    ensures RepositoriesOf(r).Some? && RepositoriesOf(r).value.nodes.Absent? ==> NodesOf(r) == Some([])
  {
  }

  /**
   * The end of a page: reading it raises when `repositories` cannot be read
   * or `pageInfo` is null; only a literal `true` asks for another page (a
   * missing or null `hasNextPage` is falsy), and the next cursor is the
   * `endCursor` when one is present.
   */
  lemma ReadingPageInfo(r: Response)
    ensures EndOf(r).None? <==> RepositoriesOf(r).None? || RepositoriesOf(r).value.pageInfo.Null?
    ensures EndOf(r).Some? ==>
      (EndOf(r).value.hasNextPage <==> RepositoriesOf(r).value.pageInfo.Present?
                                       && RepositoriesOf(r).value.pageInfo.value.hasNextPage == Present(true))
    ensures EndOf(r).Some? ==>
      (EndOf(r).value.endCursor.Some? <==> RepositoriesOf(r).value.pageInfo.Present?
                                           && RepositoriesOf(r).value.pageInfo.value.endCursor.Present?)
    ensures EndOf(r).Some? && RepositoriesOf(r).value.pageInfo.Present?
            && RepositoriesOf(r).value.pageInfo.value.endCursor.Present?
            ==> EndOf(r).value.endCursor == Some(RepositoriesOf(r).value.pageInfo.value.endCursor.value)
  {
  }

  /** The visited repositories are a prefix of all the pages' nodes, in order. */
  lemma {:induction false} VisitedIsPrefix(rs: seq<Response>)
    ensures Visited(rs) <= AllNodes(rs)
  {
    if rs != [] {
      VisitedIsPrefix(rs[1..]);
    }
  }

  /** The loop raises exactly when the last page it fetches cannot be read. */
  lemma {:induction false} CrashedAtLastPage(rs: seq<Response>)
    ensures Crashed(rs) <==> Stops(rs) && !WellFormed(rs[Fetched(rs) - 1])
  {
    if rs != [] && Continues(rs[0]) {
      CrashedAtLastPage(rs[1..]);
      if Stops(rs[1..]) {
        assert rs[Fetched(rs) - 1] == rs[1..][Fetched(rs[1..]) - 1];
      }
    }
  }

  /**
   * A page is read without raising exactly when no field on the way to
   * `nodes` and `pageInfo` is an explicit null: missing fields never raise.
   */
  lemma RaisesIffNullOnPath(r: Response)
    ensures WellFormed(r) <==> NoNullOnPath(r)
  {
  }

  /**
   * Missing fields take the permissive defaults: with no "data" at all the
   * page has no repositories and ends the loop without raising.
   */
  lemma MissingDataEndsPaging(r: Response, rest: seq<Response>)
    requires r.data.Absent?
    ensures NodesOf(r) == Some([]) && WellFormed(r) && !Continues(r)
    ensures Fetched([r] + rest) == 1 && Visited([r] + rest) == []
  {
    assert ([r] + rest)[0] == r;
  }

  /**
   * A page without a "nodes" field visits no repository, yet does not end the
   * loop by itself: its "pageInfo" still decides whether another page is asked for.
   */
  lemma MissingNodesVisitNothing(r: Response, rest: seq<Response>)
    requires RepositoriesOf(r).Some? && RepositoriesOf(r).value.nodes.Absent?
    ensures NodesOf(r) == Some([]) && PageNodes(r) == []
    ensures Visited([r] + rest) == if Continues(r) then Visited(rest) else []
  {
    assert ([r] + rest)[0] == r && ([r] + rest)[1..] == rest;
  }

  /**
   * A null "organization" (what the API answers for an unknown login) is not
   * read as an empty page: the run raises at main.py:109 before visiting any
   * repository of that page.
   */
  lemma NullOrganizationRaises(r: Response, rest: seq<Response>)
    requires r.data == Present(QueryData(Null))
    ensures !WellFormed(r)
    ensures Fetched([r] + rest) == 1 && Visited([r] + rest) == [] && Crashed([r] + rest)
  {
    assert ([r] + rest)[0] == r;
  }

  /** A page with a null "pageInfo" has its repositories visited and then raises. */
  lemma NullPageInfoRaisesAfterNodes(r: Response, rest: seq<Response>, nodes: seq<RepoNode>)
    requires r.data == Present(QueryData(Present(Organization(Present(Repositories(Null, Present(nodes)))))))
    ensures Visited([r] + rest) == nodes && Crashed([r] + rest)
  {
    assert ([r] + rest)[0] == r;
  }

  /** The response for an organization whose repositories all fit on one page. */
  function LastPage(nodes: seq<RepoNode>): Response
  {
    Response(Present(QueryData(Present(Organization(Present(Repositories(
      Present(PageInfo(Present(false), Null)), Present(nodes))))))))
  }

  /** One last page is one query that visits exactly its nodes and ends normally. */
  lemma SingleLastPage(nodes: seq<RepoNode>)
    ensures Fetched([LastPage(nodes)]) == 1
    ensures Visited([LastPage(nodes)]) == nodes
    ensures !Crashed([LastPage(nodes)])
  {
    PagingVisitsAllPages([LastPage(nodes)], 0);
    assert [LastPage(nodes)][..1] == [LastPage(nodes)];
  }
}
