/**
 * A route whose target is a regular expression. Matching is delegated to the
 * regular-expression engine (preg_match), which is not modelled: it is passed
 * in as a function from (pattern, subject) to its outcome. The route keeps
 * the captures of its most recent match attempt.
 */
module RegexRoutes {
  import opened Wrappers
  import opened Route

  /** A key of preg_match's capture array: a group number or a group name. */
  datatype CaptureKey = Group(index: nat) | Named(name: string)

  type Captures = map<CaptureKey, string>

  /** preg_match's three outcomes: 1 with the captures, 0, or false for an invalid pattern. */
  datatype MatchOutcome = Matched(captures: Captures) | NoMatch | MatchError

  type RegexEngine = (string, string) -> MatchOutcome

  datatype RouteError = InvalidRegularExpression(message: string)

  class RegexRoute {
    const target: string
    var captures: Captures

    constructor (target: string)
      ensures this.target == target && captures == map[]
    {
      this.target := target;
      captures := map[];
    }

    function GetType(): (t: RouteType)
      ensures t == Pattern
    {
      Pattern
    }

    /**
     * Clears the stored captures, then asks the engine: on a match stores its
     * whole capture array and answers true; on no match answers false; on an
     * engine error fails, leaving no captures.
     */
    method MatchesRequestTarget(requestTarget: string, pregMatch: RegexEngine) returns (r: Result<bool, RouteError>)
      modifies this`captures
      ensures pregMatch(target, requestTarget).Matched? ==>
                r == Success(true) && captures == pregMatch(target, requestTarget).captures
      ensures pregMatch(target, requestTarget).NoMatch? ==>
                r == Success(false) && captures == map[]
      ensures pregMatch(target, requestTarget).MatchError? ==>
                r == Failure(InvalidRegularExpression("Invalid regular expression: " + target)) && captures == map[]
    {
      captures := map[];
      var matched := pregMatch(target, requestTarget);
      if matched.Matched? {
        captures := matched.captures;
        return Success(true);
      } else if matched.MatchError? {
        return Failure(InvalidRegularExpression("Invalid regular expression: " + target));
      }
      return Success(false);
    }

    /** The captures stored by the most recent call of MatchesRequestTarget. */
    function GetPathVariables(): (vars: Captures)
      reads this
      ensures vars == captures
    {
      captures
    }
  }

  /**
   * Two match attempts on one route: what the route reports afterwards
   * depends only on the second attempt, so no captures of the first survive.
   */
  method MatchTwice(target: string, first: string, second: string, pregMatch: RegexEngine)
    returns (r: Result<bool, RouteError>, vars: Captures)
    ensures r.Success? <==> !pregMatch(target, second).MatchError?
    ensures r == Success(true) <==> pregMatch(target, second).Matched?
    ensures vars == if pregMatch(target, second).Matched? then pregMatch(target, second).captures else map[]
  {
    var route := new RegexRoute(target);
    var _ := route.MatchesRequestTarget(first, pregMatch);
    r := route.MatchesRequestTarget(second, pregMatch);
    vars := route.GetPathVariables();
  }
}
