/**
 * The content matcher: does any target string occur in a file's content?
 * Python's `t in c` on two strings is a contiguous-substring test; it is
 * modelled by `Contains`, and characterised by `OccursAt`.
 */
module ContentMatch {

  /** `t` occurs in `c` starting at position `i`. */
  ghost predicate OccursAt(c: string, t: string, i: nat)
  {
    i + |t| <= |c| && c[i..i + |t|] == t
  }

  /** `t` is a contiguous substring of `c` (the meaning of Python's `t in c`). */
  ghost predicate IsSubstring(t: string, c: string)
  {
    exists i: nat :: OccursAt(c, t, i)
  }

  /** Substring test, scanning the start positions of `c` from left to right. */
  function Contains(c: string, t: string): bool
    decreases |c|
  {
    |t| <= |c| && (c[..|t|] == t || Contains(c[1..], t))
  }

  /** A slice of `c[1..]` is the slice of `c` one position further on. */
  lemma SliceOfTail(c: string, i: nat, n: nat)
    requires i + n + 1 <= |c|
    ensures c[1..][i..i + n] == c[i + 1..i + 1 + n]
  {
    var x, y := c[1..][i..i + n], c[i + 1..i + 1 + n];
    assert |x| == n == |y|;
    forall k | 0 <= k < n
      ensures x[k] == y[k]
    {
      assert x[k] == c[1..][i + k] == c[i + 1 + k];
    }
  }

  lemma {:induction false} ContainsIsSubstring(c: string, t: string)
    ensures Contains(c, t) <==> IsSubstring(t, c)
    decreases |c|
  {
    if |t| <= |c| {
      if c[..|t|] == t {
        assert OccursAt(c, t, 0);
      } else {
        ContainsIsSubstring(c[1..], t);
        if Contains(c[1..], t) {
          var i: nat :| OccursAt(c[1..], t, i);
          SliceOfTail(c, i, |t|);
          assert OccursAt(c, t, i + 1);
        } else {
          forall i: nat
            ensures !OccursAt(c, t, i)
          {
            if i > 0 && i + |t| <= |c| {
              SliceOfTail(c, i - 1, |t|);
              assert !OccursAt(c[1..], t, i - 1);
            }
          }
        }
      }
    }
  }

  /**
   * The result of `search_in_content`: the targets are tried in list order
   * and the first one that occurs decides.
   */
  function Matches(c: string, targets: seq<string>): bool
  {
    |targets| > 0 && (Contains(c, targets[0]) || Matches(c, targets[1..]))
  }

  /** The matcher is true exactly when some target is a substring of the content. */
  lemma {:induction false} MatchesIffSomeTargetOccurs(c: string, targets: seq<string>)
    ensures Matches(c, targets) <==> exists t :: t in targets && IsSubstring(t, c)
  {
    if |targets| > 0 {
      ContainsIsSubstring(c, targets[0]);
      MatchesIffSomeTargetOccurs(c, targets[1..]);
      assert forall t :: t in targets <==> t == targets[0] || t in targets[1..];
    }
  }

  /** With no targets nothing matches; with one target the matcher is the substring test. */
  lemma SingleTarget(c: string, t: string)
    ensures !Matches(c, [])
    ensures Matches(c, [t]) <==> IsSubstring(t, c)
  {
    MatchesIffSomeTargetOccurs(c, [t]);
  }

  /**
   * Although the scan stops at the first hit in list order, the answer
   * depends only on which strings are targets, not on their order or
   * repetitions.
   */
  lemma OrderIndependent(c: string, targets: seq<string>, others: seq<string>)
    requires forall t :: t in targets <==> t in others
    ensures Matches(c, targets) == Matches(c, others)
  {
    MatchesIffSomeTargetOccurs(c, targets);
    MatchesIffSomeTargetOccurs(c, others);
  }

  /** `search_in_content`: a loop over the targets that returns on the first hit. */
  method SearchInContent(content: string, targets: seq<string>) returns (found: bool)
    ensures found == Matches(content, targets)
    ensures found <==> exists t :: t in targets && IsSubstring(t, content)
  {
    MatchesIffSomeTargetOccurs(content, targets);
    for i := 0 to |targets|
      invariant Matches(content, targets) == Matches(content, targets[i..])
    {
      assert targets[i..][1..] == targets[i + 1..];
      if Contains(content, targets[i]) {
        return true;
      }
    }
    return false;
  }

  /** The default target. */
  const UploadArtifact: string := "actions/upload-artifact"

  /** A workflow line `uses: <t>...` matches target `t`, whatever follows (a ref such as "@v3"). */
  lemma StepUsingTargetMatches(t: string, rest: string)
    ensures Matches("uses: " + t + rest, [t])
  {
    var c := "uses: " + t + rest;
    assert c[6..6 + |t|] == t;
    assert OccursAt(c, t, 6);
    SingleTarget(c, t);
  }

  /** A step using the action matches the default target; a short unrelated file does not. */
  lemma UploadArtifactExample()
    ensures Matches("uses: " + UploadArtifact + "@v3", [UploadArtifact])
    ensures !Matches("on: push", [UploadArtifact])
  {
    StepUsingTargetMatches(UploadArtifact, "@v3");
    assert [UploadArtifact][1..] == [];
    assert !Contains("on: push", UploadArtifact);
  }
}
