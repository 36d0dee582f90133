/** The two entry points: the module's rules on a request at the end of the rewrite phase, and on a response when its
    header is about to be sent. */
module Handlers {
  import opened Rules
  import opened RuleEngine
  import opened Inheritance
  import opened RuleMerge
  import opened RequestState
  import opened ResponseState
  import RequestHeaders
  import ResponseHeaders
  import RequestRun
  import ResponseRun

  /** The rewrite handler, behind the rearrangement of the phase table. On a level that inherits through
      `levels`, the innermost first, the request ends as if all their rules had been run in order, whatever was pruned.
      HTTP before 1.0 has no headers. */
  method HandleRequest(conf: LocConf, r: RequestHeaders.Request, http10: bool,
                       eval: (string, RequestView) -> Option<string>, width: nat, stride: nat,
                       ghost levels: seq<seq<Rule>>) returns (ok: bool)
    requires conf.Counted() && RulesOf(Elts(conf.headersIn)) == Merged(levels) && 0 < stride <= width
    requires r.Valid() && RequestRun.FitsMemory(eval)
    requires forall hv :: hv in Elts(conf.headersIn) ==> Admissible(hv.rule, r.fields.Keys)
    requires RequestRun.DefinedRun(RequestRun.RequestEnv(eval), Merged(levels), {}, r.State())
    modifies r, r.headers.Repr
    ensures r.Valid() && r.fields.Keys == old(r.fields.Keys)
    ensures http10 ==> SameFinish(Result(r.State(), ok, {}, []),
            Run(RequestRun.RequestEnv(eval), All(levels), {}, old(r.State())))
    ensures !http10 ==> ok && r.State() == old(r.State())
  {
    hide Run, Merged, All, Admissible, RequestRun.FitsMemory, RequestRun.DefinedRun, RequestHeaders.Request.Valid;
    MergedKeepsMeaning(RequestRun.RequestEnv(eval), levels, {}, r.State());
    if conf.headersIn == null {
      RunStep(RequestRun.RequestEnv(eval), [], {}, r.State());
      return true;
    }
    if !http10 {
      return true;
    }
    ok := RequestRun.RunRules(r, conf.headersIn.elts, conf.cntIn, eval, width, stride);
  }

  /** The header filter, likewise. */
  method FilterResponse(conf: LocConf, r: ResponseHeaders.Response, eval: (string, ResponseView) -> Option<string>,
                        width: nat, stride: nat, ghost levels: seq<seq<Rule>>) returns (ok: bool)
    requires conf.Counted() && RulesOf(Elts(conf.headersOut)) == Merged(levels) && 0 < stride <= width
    requires r.Valid() && forall hv :: hv in Elts(conf.headersOut) ==> Suits(hv.rule, r.fields.Keys, r.chains.Keys)
    modifies r, r.headers.Repr
    ensures r.Valid() && r.fields.Keys == old(r.fields.Keys) && r.chains.Keys == old(r.chains.Keys)
    ensures SameFinish(Result(r.State(), ok, {}, []),
            Run(ResponseRun.ResponseEnv(eval), All(levels), {}, old(r.State())))
  {
    hide Run, Merged, All, Suits;
    MergedKeepsMeaning(ResponseRun.ResponseEnv(eval), levels, {}, r.State());
    if conf.headersOut == null {
      RunStep(ResponseRun.ResponseEnv(eval), [], {}, r.State());
      return true;
    }
    ok := ResponseRun.RunRules(r, conf.headersOut.elts, conf.cntOut, eval, width, stride);
  }
}
