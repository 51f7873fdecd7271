/** The wildcard classifier `detectStatus` of datastructure.c: a domain is
    wildcard-blocked when some pattern equals, ignoring ASCII case, the
    domain itself or one of the suffixes left by stripping leading labels. */
module Wildcard {
  import opened Common
  import opened CString

  /** Status code for an answer caused by wildcard blocking. */
  const StatusWildcard: int := 4
  /** Status code for any other answer ("cached"). */
  const StatusCached: int := 3

  /** One step of `sscanf(part, "%*[^.].%s", partbuffer) > 0`: skip one or
      more non-dot characters, a dot, and read the non-empty rest. None when
      the string starts with a dot, has no dot, or ends at its first dot. */
  function StripLabel(part: string): (r: Option<string>)
    ensures r.Some? ==> 0 < |r.value| < |part|
  {
    var k := FirstDot(part);
    if 1 <= k && k + 1 < |part| then Some(part[k + 1..]) else None
  }

  /** Index of the first dot of `s`, or `|s|` when there is none: where the
      `%*[^.]` conversion stops. */
  function FirstDot(s: string): (r: nat)
    ensures r <= |s| && (r < |s| ==> s[r] == '.')
  {
    if |s| == 0 then 0 else if s[0] == '.' then 0 else FirstDot(s[1..]) + 1
  }

  /** No dot comes before FirstDot(s). */
  lemma {:induction false} FirstDotIsFirst(s: string, i: nat)
    requires i < FirstDot(s)
    ensures s[i] != '.'
  {
    if i > 0 {
      FirstDotIsFirst(s[1..], i - 1);
    }
  }

  /** A dot at k with none before it is the first dot. */
  lemma {:induction false} FirstDotAt(s: string, k: nat)
    requires k < |s| && s[k] == '.' && forall i :: 0 <= i < k ==> s[i] != '.'
    ensures FirstDot(s) == k
  {
    if k > 0 {
      FirstDotAt(s[1..], k - 1);
    }
  }

  /** StripLabel succeeds with `rest` exactly when the string is a non-empty,
      dot-free head, a dot, and the non-empty `rest`. */
  lemma StripLabelSpec(part: string, head: string, rest: string)
    ensures (head != [] && '.' !in head && rest != [] && part == head + "." + rest)
      ==> StripLabel(part) == Some(rest)
    ensures StripLabel(part) == Some(rest) ==>
      var head' := part[..|part| - |rest| - 1];
      head' != [] && '.' !in head' && rest != [] && part == head' + "." + rest
  {
    if head != [] && '.' !in head && rest != [] && part == head + "." + rest {
      assert part[|head|] == '.';
      assert part[..|head|] == head;
      assert part[|head| + 1..] == rest;
      FirstDotAt(part, |head|);
    }
    if StripLabel(part) == Some(rest) {
      var k := FirstDot(part);
      assert k == |part| - |rest| - 1;
      assert part == part[..k] + "." + part[k + 1..];
      forall i | 0 <= i < k ensures part[..k][i] != '.' {
        FirstDotIsFirst(part, i);
      }
    }
  }

  /** The strings `detectStatus` compares with each pattern: the domain,
      then every result of repeated stripping until StripLabel fails. Each
      is a proper suffix of the one before, which is why the loop ends. */
  function Suffixes(d: string): (r: seq<string>)
    ensures |r| >= 1 && r[0] == d
    decreases |d|
  {
    match StripLabel(d)
    case None => [d]
    case Some(t) => [d] + Suffixes(t)
  }

  /** One more step of the stripping loop: the k-th string of Suffixes(d)
      strips exactly when it is not the last, and then to the next one. */
  lemma {:induction false} SuffixesStep(d: string, k: nat)
    requires k < |Suffixes(d)|
    ensures StripLabel(Suffixes(d)[k]).Some? <==> k + 1 < |Suffixes(d)|
    ensures k + 1 < |Suffixes(d)| ==> StripLabel(Suffixes(d)[k]) == Some(Suffixes(d)[k + 1])
    decreases |d|
  {
    match StripLabel(d)
    case None =>
      assert Suffixes(d) == [d];
    case Some(t) =>
      assert Suffixes(d) == [d] + Suffixes(t);
      if k > 0 {
        SuffixesStep(t, k - 1);
        assert Suffixes(d)[k] == Suffixes(t)[k - 1];
        assert k + 1 < |Suffixes(d)| ==> Suffixes(d)[k + 1] == Suffixes(t)[k];
      }
  }

  /** What StripLabel leaves is a proper suffix of its input. */
  lemma StripLabelSuffix(part: string)
    requires StripLabel(part).Some?
    ensures var t := StripLabel(part).value; |t| < |part| && t == part[|part| - |t|..]
  {
  }

  /** Every string of Suffixes(d) is a suffix of `d`, and the j-th is at
      least j characters shorter: the termination argument of the loop. */
  lemma {:induction false} SuffixesShrink(d: string, j: nat)
    requires j < |Suffixes(d)|
    ensures |Suffixes(d)[j]| + j <= |d|
    ensures Suffixes(d)[j] == d[|d| - |Suffixes(d)[j]|..]
    decreases |d|
  {
    if j > 0 {
      StripLabelSuffix(d);
      var t := StripLabel(d).value;
      assert Suffixes(d) == [d] + Suffixes(t);
      SuffixesShrink(t, j - 1);
      SuffixOfSuffix(d, t, Suffixes(t)[j - 1]);
    }
  }

  /** A suffix of a suffix is a suffix. */
  lemma SuffixOfSuffix(a: string, b: string, c: string)
    requires |b| <= |a| && b == a[|a| - |b|..]
    requires |c| <= |b| && c == b[|b| - |c|..]
    ensures c == a[|a| - |c|..]
  {
    assert b[|b| - |c|..] == a[|a| - |c|..];
  }

  /** Domains without empty labels: non-empty, no leading or trailing dot,
      no two dots in a row. */
  predicate HostName(d: string)
  {
    d != [] && d[0] != '.' && d[|d| - 1] != '.' &&
    forall i, j :: 0 <= i < j < |d| && d[i] == '.' && d[j] == '.' ==> i + 1 < j
  }

  /** Suffixes that follow a dot of `d`. */
  predicate AfterDot(d: string, s: string)
  {
    exists i :: 0 <= i < |d| && d[i] == '.' && s == d[i + 1..]
  }

  /** What follows a dot of a host name is again a host name. */
  lemma HostNameDrop(d: string, m: nat)
    requires HostName(d) && 0 < m < |d| && d[m - 1] == '.'
    ensures HostName(d[m..])
  {
    var t := d[m..];
    assert t[0] != '.' by {
      assert t[0] == d[m];
    }
    assert t[|t| - 1] == d[|d| - 1];
    forall i, j | 0 <= i < j < |t| && t[i] == '.' && t[j] == '.' ensures i + 1 < j {
      assert t[i] == d[m + i] && t[j] == d[m + j];
    }
  }

  /** A host name with a dot starts with a label of at least one
      character, and what follows its first dot is again a host name. */
  lemma HostNameTail(d: string, k: nat)
    requires HostName(d) && k == FirstDot(d) < |d|
    ensures 1 <= k < |d| - 1 && StripLabel(d) == Some(d[k + 1..]) && HostName(d[k + 1..])
  {
    assert 1 <= k < |d| - 1 by {
      assert d[k] == '.';
    }
    HostNameDrop(d, k + 1);
  }

  /** The suffixes after the dots of `d` are the one after its first dot
      `k` and those after the dots of that suffix. */
  lemma AfterDotTail(d: string, k: nat, s: string)
    requires k == FirstDot(d) < |d|
    ensures AfterDot(d, s) <==> s == d[k + 1..] || AfterDot(d[k + 1..], s)
  {
    if AfterDot(d, s) {
      AfterDotTailIn(d, k, s);
    }
    if s == d[k + 1..] || AfterDot(d[k + 1..], s) {
      AfterDotTailOut(d, k, s);
    }
  }

  lemma AfterDotTailIn(d: string, k: nat, s: string)
    requires k == FirstDot(d) < |d| && AfterDot(d, s)
    ensures s == d[k + 1..] || AfterDot(d[k + 1..], s)
  {
    var t := d[k + 1..];
    var i :| 0 <= i < |d| && d[i] == '.' && s == d[i + 1..];
    if i < k {
      FirstDotIsFirst(d, i);
    } else if i > k {
      assert t[i - k - 1] == '.' && s == t[i - k..];
    }
  }

  lemma AfterDotTailOut(d: string, k: nat, s: string)
    requires k == FirstDot(d) < |d| && (s == d[k + 1..] || AfterDot(d[k + 1..], s))
    ensures AfterDot(d, s)
  {
    var t := d[k + 1..];
    if s == t {
      assert d[k] == '.';
    } else {
      var i :| 0 <= i < |t| && t[i] == '.' && s == t[i + 1..];
      assert d[k + 1 + i] == '.' && s == d[k + 1 + i + 1..];
    }
  }

  /** For a host name the stripping reaches the domain itself and exactly
      the suffixes that start after one of its dots:
      sub.example.com, example.com, com. */
  lemma {:induction false} SuffixesOfHostName(d: string, s: string)
    requires HostName(d)
    ensures s in Suffixes(d) <==> s == d || AfterDot(d, s)
    decreases |d|
  {
    var k := FirstDot(d);
    if k == |d| {
      assert StripLabel(d) == None;
      if AfterDot(d, s) {
        var i :| 0 <= i < |d| && d[i] == '.' && s == d[i + 1..];
        FirstDotIsFirst(d, i);
      }
    } else {
      HostNameTail(d, k);
      var t := d[k + 1..];
      assert Suffixes(d) == [d] + Suffixes(t);
      SuffixesOfHostName(t, s);
      AfterDotTail(d, k, s);
    }
  }

  /** The pattern equals, ignoring case, some string of Suffixes(d). */
  predicate PatternHits(pattern: string, d: string)
  {
    exists j :: 0 <= j < |Suffixes(d)| && CaseEq(pattern, Suffixes(d)[j])
  }

  /** Some pattern hits the domain. */
  predicate Matches(wildcards: seq<string>, d: string)
  {
    exists i :: 0 <= i < |wildcards| && PatternHits(wildcards[i], d)
  }

  /** One pass of the outer loop of `detectStatus`: compare the pattern
      with the domain, then with each suffix left by stripping a label. */
  method HitsPattern(pattern: string, domain: string) returns (hit: bool)
    ensures hit <==> PatternHits(pattern, domain)
  {
    ghost var sufs := Suffixes(domain);
    // Exact match with the pattern.
    if CaseEq(pattern, domain) {
      assert CaseEq(pattern, sufs[0]);
      return true;
    }
    // Strip subdomains one after another and compare each suffix.
    var part := domain;
    ghost var k := 0;
    while StripLabel(part).Some?
      invariant 0 <= k < |sufs| && part == sufs[k]
      invariant forall j :: 0 <= j <= k ==> !CaseEq(pattern, sufs[j])
      decreases |part|
    {
      var partbuffer := StripLabel(part).value;
      SuffixesStep(domain, k);
      assert partbuffer == sufs[k + 1];
      if CaseEq(pattern, partbuffer) {
        return true;
      }
      if |partbuffer| > 0 {
        NoHitExtends(pattern, sufs, k);
        part := partbuffer;
        k := k + 1;
      }
    }
    SuffixesStep(domain, k);
    return false;
  }

  /** No hit among the first k + 1 compared strings, nor at the next one:
      no hit among the first k + 2. */
  lemma NoHitExtends(pattern: string, sufs: seq<string>, k: nat)
    requires k + 1 < |sufs|
    requires forall j :: 0 <= j <= k ==> !CaseEq(pattern, sufs[j])
    requires !CaseEq(pattern, sufs[k + 1])
    ensures forall j :: 0 <= j <= k + 1 ==> !CaseEq(pattern, sufs[j])
  {
  }

  /** `detectStatus(domain)` over the externally owned pattern list
      `wildcarddomains[0 .. counters.wildcarddomains)`. */
  method DetectStatus(wildcarddomains: seq<string>, domain: string) returns (status: int)
    ensures status == StatusWildcard || status == StatusCached
    ensures status == StatusWildcard <==> Matches(wildcarddomains, domain)
  {
    for i := 0 to |wildcarddomains|
      invariant forall p :: 0 <= p < i ==> !PatternHits(wildcarddomains[p], domain)
    {
      var hit := HitsPattern(wildcarddomains[i], domain);
      if hit {
        return StatusWildcard;
      }
    }
    return StatusCached;
  }

  /** A witness pattern and suffix establish a match. */
  lemma MatchesAt(wildcards: seq<string>, d: string, i: nat, j: nat)
    requires i < |wildcards| && j < |Suffixes(d)| && CaseEq(wildcards[i], Suffixes(d)[j])
    ensures Matches(wildcards, d)
  {
  }

  /** Stripping a first label `head` leaves `rest` as the second suffix;
      when `rest` has no dot, it is the last. */
  lemma SuffixesAfterHead(head: string, rest: string)
    requires head != [] && '.' !in head && rest != []
    ensures var d := head + "." + rest;
      |Suffixes(d)| >= 2 && Suffixes(d)[1] == rest &&
      ('.' !in rest ==> Suffixes(d) == [d, rest])
  {
    var d := head + "." + rest;
    StripLabelSpec(d, head, rest);
    assert Suffixes(d) == [d] + Suffixes(rest);
    if '.' !in rest {
      assert Suffixes(rest) == [rest];
    }
  }

  /** With the pattern set {"example.com"}: a subdomain is blocked through
      its first stripped suffix. */
  method SubdomainExample() returns (sub: int)
    ensures sub == StatusWildcard
  {
    var ws := ["example.com"];
    var d := "ads.example.com";
    assert d == "ads" + "." + "example.com";
    SuffixesAfterHead("ads", "example.com");
    MatchesAt(ws, d, 0, 1);
    sub := DetectStatus(ws, d);
  }

  /** A single pattern does not hit `head.rest` (both labels dot-free)
      when it differs, ignoring case, from both compared strings. */
  lemma NoHitTwoLabels(p: string, head: string, rest: string)
    requires head != [] && '.' !in head && rest != [] && '.' !in rest
    requires !CaseEq(p, head + "." + rest) && !CaseEq(p, rest)
    ensures !Matches([p], head + "." + rest)
  {
    SuffixesAfterHead(head, rest);
  }
}
