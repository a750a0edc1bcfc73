/**
 * A route that matches every request target beginning with a fixed prefix.
 * The prefix is the route's target with its trailing '*' characters removed.
 */
module PrefixRoutes {
  import opened Wrappers
  import opened PhpStrings
  import opened Route

  datatype PrefixRoute = PrefixRoute(target: string)

  /** rtrim(s, c): s without any run of c at its end. */
  function RTrim(s: string, c: char): (r: string)
    ensures |r| <= |s| && r == s[..|r|]
    ensures r != [] ==> r[|r| - 1] != c
    ensures forall i :: |r| <= i < |s| ==> s[i] == c
    decreases |s|
  {
    if s != [] && s[|s| - 1] == c then RTrim(s[..|s| - 1], c) else s
  }

  /** The stored target: the given one without its trailing '*' characters. */
  function NewPrefixRoute(target: string): (r: PrefixRoute)
    ensures r.target == RTrim(target, '*')
  {
    PrefixRoute(RTrim(target, '*'))
  }

  /** Stripping is the only change: what remains, followed by the stripped stars, is the target. */
  lemma {:induction false} StoredTargetStripsStars(target: string)
    ensures var t := NewPrefixRoute(target).target;
            t + seq(|target| - |t|, k => '*') == target && (t == [] || t[|t| - 1] != '*')
  {
    var t := NewPrefixRoute(target).target;
    var stars := seq(|target| - |t|, k => '*');
    assert |t + stars| == |target|;
    forall i | 0 <= i < |target| ensures (t + stars)[i] == target[i] {
      if i >= |t| {
        assert (t + stars)[i] == stars[i - |t|];
      }
    }
  }

  /** A target without a trailing '*' is stored unchanged. */
  lemma {:induction false} NoStarUnchanged(target: string)
    requires target == [] || target[|target| - 1] != '*'
    ensures NewPrefixRoute(target).target == target
  {
  }

  function GetType(r: PrefixRoute): (t: RouteType)
    ensures t == Prefix
  {
    Prefix
  }

  /** The route's test: strrpos(requestTarget, target, -strlen(requestTarget)) !== false. */
  function MatchesRequestTarget(r: PrefixRoute, requestTarget: string): (m: bool)
    ensures m ==> r.target != "" && StartsWith(requestTarget, r.target)
  {
    StrRPos(requestTarget, r.target, -|requestTarget|).Some?
  }

  /** A prefix route never produces path variables. */
  function GetPathVariables(r: PrefixRoute): (vars: map<string, string>)
    ensures vars == map[]
  {
    map[]
  }

  predicate StartsWith(s: string, prefix: string)
  {
    |prefix| <= |s| && s[..|prefix|] == prefix
  }

  /**
   * With a non-empty stored target the strrpos test is exactly "starts with":
   * the negative offset confines the search to an occurrence at position 0.
   */
  lemma MatchesIffStartsWith(r: PrefixRoute, requestTarget: string)
    requires r.target != ""
    ensures MatchesRequestTarget(r, requestTarget) <==> StartsWith(requestTarget, r.target)
  {
    var p, t := requestTarget, r.target;
    if |p| > 0 && |t| <= |p| {
      assert Min(|p| - |t|, |p| - |p|) == 0;
      assert StrRPos(p, t, -|p|) == LastOccurrence(p, t, 0, 0);
      assert OccursAt(p, t, 0) <==> StartsWith(p, t);
    }
  }

  /** A request target equal to the stored one matches: the rest of the path may be empty. */
  lemma ExactTargetMatches(r: PrefixRoute)
    requires r.target != ""
    ensures MatchesRequestTarget(r, r.target)
  {
    MatchesIffStartsWith(r, r.target);
  }

  /** A stored target longer than the request target never matches. */
  lemma LongerTargetNeverMatches(r: PrefixRoute, requestTarget: string)
    requires |r.target| > |requestTarget|
    ensures !MatchesRequestTarget(r, requestTarget)
  {
  }

  /** PHP 7's strrpos rejects an empty needle, so an all-star target matches nothing. */
  lemma EmptyTargetNeverMatches(r: PrefixRoute, requestTarget: string)
    requires r.target == ""
    ensures !MatchesRequestTarget(r, requestTarget)
  {
  }

  // The target "/cats/*" stores "/cats/", matches "/cats/42/toys" and not "/dogs/42".
  lemma CatsExample()
    ensures NewPrefixRoute("/cats/*").target == "/cats/"
    ensures MatchesRequestTarget(NewPrefixRoute("/cats/*"), "/cats/42/toys")
    ensures !MatchesRequestTarget(NewPrefixRoute("/cats/*"), "/dogs/42")
    ensures GetType(NewPrefixRoute("/cats/*")) == Prefix
  {
    var r := NewPrefixRoute("/cats/*");
    assert "/cats/*"[..6] == "/cats/";
    MatchesIffStartsWith(r, "/cats/42/toys");
    assert "/cats/42/toys"[..6] == "/cats/";
    MatchesIffStartsWith(r, "/dogs/42");
    assert "/dogs/42"[1] != "/cats/"[1];
  }
}
