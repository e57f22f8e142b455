/** The navigation policy of a web state: the two-valued decision a policy
    decider returns, the decisions of a decider that overrides nothing, and the
    decider's link to the web state it decides for.
*/
module WebStatePolicy {

  /** The decisions that can be taken for a navigation. */
  datatype Decision = AllowNavigation | CancelNavigation

  /** The decision a PolicyDecision holds when nothing else is given. */
  const DefaultDecision: Decision := AllowNavigation

  /** A navigation decision, as returned by ShouldAllowRequest. */
  datatype PolicyDecision = PolicyDecision(decision: Decision) {

    /** A policy decision which allows the navigation. */
    static function Allow(): (d: PolicyDecision)
      ensures d.ShouldAllowNavigation() && !d.ShouldCancelNavigation()
    {
      PolicyDecision(AllowNavigation)
    }

    /** A policy decision which cancels the navigation. */
    static function Cancel(): (d: PolicyDecision)
      ensures d.ShouldCancelNavigation() && !d.ShouldAllowNavigation()
    {
      PolicyDecision(CancelNavigation)
    }

    /** The decision the field's default initialiser gives. The only
        constructor of the type always sets the field, so no decision is ever
        built this way; this states what the initialiser would give. */
    static function DefaultInitialized(): (d: PolicyDecision)
      ensures d == Allow()
    {
      PolicyDecision(DefaultDecision)
    }

    /** Whether the navigation will continue: exactly when it will not be
        cancelled. */
    predicate ShouldAllowNavigation(): (allowed: bool)
      ensures allowed == !ShouldCancelNavigation()
    {
      decision == AllowNavigation
    }

    /** Whether the navigation will be cancelled. */
    predicate ShouldCancelNavigation(): (cancelled: bool)
      ensures cancelled <==> decision != AllowNavigation
    {
      decision == CancelNavigation
    }
  }

  /** Every decision is one of the two, and not both. */
  lemma DecisionIsAllowOrCancel(d: PolicyDecision)
    ensures d == PolicyDecision.Allow() <==> d != PolicyDecision.Cancel()
    ensures d == PolicyDecision.Allow() <==> d.ShouldAllowNavigation()
  {
  }

  /** A page transition type, by its numeric value. */
  type PageTransition = nat

  /** The additional information about a navigation request. */
  datatype RequestInfo = RequestInfo(
    transitionType: PageTransition,
    targetFrameIsMain: bool,
    hasUserGesture: bool)

  /** A navigation request, reduced to the URL it asks for. */
  datatype UrlRequest = UrlRequest(url: string)

  /** A navigation response, reduced to the URL it answers. */
  datatype UrlResponse = UrlResponse(url: string)

  /** A web state whose navigations a decider rules on; only its identity
      matters here. */
  class WebState { }

  /** Decides the navigation policy for a web state. */
  class WebStatePolicyDecider {
    /** The web state to decide navigation policy for; null once reset. */
    var webState: WebState?

    /** Subscribes to `webState`. */
    constructor(webState: WebState?)
      ensures this.webState == webState
    {
      this.webState := webState;
    }

    /** Whether the navigation for `request` may continue: a decider that
        does not override this allows every request. */
    function ShouldAllowRequest(request: UrlRequest, info: RequestInfo): (d: PolicyDecision)
      ensures d.ShouldAllowNavigation() && !d.ShouldCancelNavigation()
    {
      PolicyDecision.Allow()
    }

    /** Whether the navigation for `response` may continue: a decider that
        does not override this allows every response, in any frame. */
    function ShouldAllowResponse(response: UrlResponse, forMainFrame: bool): (allowed: bool)
      ensures allowed
    {
      true
    }

    /** Forgets the web state. */
    method ResetWebState()
      modifies this
      ensures webState == null
    {
      webState := null;
    }
  }
}
