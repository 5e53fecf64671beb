/**
 * The GraphQL endpoint used by `execute_graphql_query`: the configured REST
 * base URL with every "/v3" removed (Python's `str.replace`, which scans left
 * to right and replaces non-overlapping occurrences), followed by "/graphql".
 */
module Endpoint {
  import opened ContentMatch

  const Version: string := "/v3"
  const GraphqlPath: string := "/graphql"

  /** `s.replace("/v3", "")`: removal only drops characters, so the result is never longer than `s`. */
  function RemoveVersion(s: string): (r: string)
    ensures |r| <= |s|
    decreases |s|
  {
    if |s| < |Version| then s
    else if s[..|Version|] == Version then RemoveVersion(s[|Version|..])
    else [s[0]] + RemoveVersion(s[1..])
  }

  /** Removal only ever drops whole three-character occurrences. */
  lemma {:induction false} RemoveVersionLength(s: string)
    ensures (|s| - |RemoveVersion(s)|) % 3 == 0
    decreases |s|
  {
    if |s| >= |Version| {
      if s[..|Version|] == Version {
        RemoveVersionLength(s[|Version|..]);
      } else {
        RemoveVersionLength(s[1..]);
      }
    }
  }

  /** The base URL is left unchanged exactly when it has no "/v3" in it. */
  lemma {:induction false} RemoveVersionIdentity(s: string)
    ensures RemoveVersion(s) == s <==> !IsSubstring(Version, s)
    decreases |s|
  {
    ContainsIsSubstring(s, Version);
    if |s| >= |Version| {
      if s[..|Version|] == Version {
        assert |RemoveVersion(s)| < |s|;
      } else {
        RemoveVersionIdentity(s[1..]);
        ContainsIsSubstring(s[1..], Version);
        if RemoveVersion(s) == s {
          assert RemoveVersion(s[1..]) == s[1..];
        }
      }
    }
  }

  /**
   * The removal is not a guarantee that no "/v3" is left: removing the
   * inner occurrence of "/v/v33" joins the remaining pieces into a new one.
   */
  lemma RemovalCanCreateVersion()
    ensures RemoveVersion("/v/v33") == "/v3"
    ensures IsSubstring(Version, RemoveVersion("/v/v33"))
  {
    var s := "/v/v33";
    assert s[..3][2] != Version[2];
    assert s[1..][..3][1] != Version[1];
    assert s[1..][1..] == "/v33";
    assert "/v33"[..3] == Version;
    assert "/v33"[3..] == "3";
    assert OccursAt("/v3", Version, 0);
  }

  /**
   * `f"{github_url.replace('/v3', '')}/graphql"`: the endpoint ends with
   * "/graphql", is at most the base plus "/graphql" long (shorter by whole
   * occurrences), and is exactly the base plus "/graphql" iff the base holds
   * no "/v3" (as the default public base does).
   */
  function GraphqlUrl(base: string): (url: string)
    ensures |url| >= |GraphqlPath| && url[|url| - |GraphqlPath|..] == GraphqlPath
    ensures |url| <= |base| + |GraphqlPath| && (|base| + |GraphqlPath| - |url|) % 3 == 0
    ensures url == base + GraphqlPath <==> !IsSubstring(Version, base)
  {
    RemoveVersionLength(base);
    RemoveVersionIdentity(base);
    RemoveVersion(base) + GraphqlPath
  }

  /**
   * Every "/v3" of the base is removed: cutting the base at any occurrence,
   * the endpoint is the removal applied to each side, then "/graphql".
   */
  lemma GraphqlUrlDropsEveryVersion(a: string, b: string)
    ensures GraphqlUrl(a + Version + b) == RemoveVersion(a) + RemoveVersion(b) + GraphqlPath
  {
    RemoveEveryOccurrence(a, b);
  }

  /** A string that does not start with "/v3" keeps its first character. */
  lemma RemoveVersionCons(a: string)
    requires |a| > 0 && !(|a| >= |Version| && a[..|Version|] == Version)
    ensures RemoveVersion(a) == [a[0]] + RemoveVersion(a[1..])
  {
    if |a| < |Version| {
      assert RemoveVersion(a[1..]) == a[1..];
      assert [a[0]] + a[1..] == a;
    }
  }

  /**
   * "/v3" does not overlap a shifted copy of itself: inserting it after a
   * non-empty string that does not start with "/v3" creates no occurrence at
   * the front.
   */
  lemma NoVersionAtFront(a: string, b: string)
    requires |a| > 0 && !(|a| >= |Version| && a[..|Version|] == Version)
    ensures (a + Version + b)[..|Version|] != Version
  {
    var s := a + Version + b;
    if |a| >= |Version| {
      assert s[..|Version|] == a[..|Version|];
    } else if |a| == 1 {
      assert s[1] == '/';
    } else {
      assert s[2] == '/';
    }
  }

  /**
   * An occurrence of "/v3" anywhere in a string is removed, and the pieces on
   * either side are treated independently: no occurrence straddles the one
   * removed.
   */
  lemma {:induction false} RemoveEveryOccurrence(a: string, b: string)
    ensures RemoveVersion(a + Version + b) == RemoveVersion(a) + RemoveVersion(b)
    decreases |a|
  {
    var s := a + Version + b;
    if |a| == 0 {
      assert s == Version + b;
      assert s[..|Version|] == Version && s[|Version|..] == b;
    } else if |a| >= |Version| && a[..|Version|] == Version {
      assert s[..|Version|] == Version;
      assert s[|Version|..] == a[|Version|..] + Version + b;
      RemoveEveryOccurrence(a[|Version|..], b);
    } else {
      NoVersionAtFront(a, b);
      assert s[0] == a[0] && s[1..] == a[1..] + Version + b;
      RemoveEveryOccurrence(a[1..], b);
      RemoveVersionCons(a);
    }
  }

  /** An enterprise base ".../api/v3" becomes ".../api/graphql". */
  lemma EnterpriseBase(host: string)
    requires !IsSubstring(Version, host + "/api")
    ensures GraphqlUrl(host + "/api/v3") == host + "/api/graphql"
  {
    var api := host + "/api";
    RemoveEveryOccurrence(api, "");
    RemoveVersionIdentity(api);
    assert RemoveVersion("") == "";
    assert api + Version + "" == host + "/api/v3";
    assert api + GraphqlPath == host + "/api/graphql";
  }
}
