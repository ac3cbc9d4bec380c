/**
 * The policy engine: named redaction policies, request-level override
 * merging, and the per-span filter that keeps an analyzer result only when
 * its entity type is allowed and its score meets the threshold.
 */
module Policies {
  import opened Wrappers

  /** One analyzer result, as far as policy filtering looks at it. */
  datatype EntitySpan = EntitySpan(entityType: string, score: real)

  datatype RedactionPolicy = RedactionPolicy(
    context: string,
    enabledEntities: seq<string>,
    disabledEntities: seq<string>,
    restorationAllowed: bool,
    minConfidenceThreshold: real,
    description: string)
  {
    /**
     * Disabled entity types are never allowed, even when also enabled; an empty
     * enabled list allows every type that is not disabled; otherwise a type is
     * allowed exactly when it is enabled (and not disabled).
     */
    function IsEntityAllowed(entityType: string): (allowed: bool)
      ensures entityType in disabledEntities ==> !allowed
      ensures entityType !in disabledEntities && |enabledEntities| == 0 ==> allowed
      ensures |enabledEntities| > 0 ==>
                (allowed <==> entityType in enabledEntities && entityType !in disabledEntities)
    {
      if entityType in disabledEntities then false
      else if |enabledEntities| == 0 then true
      else entityType in enabledEntities
    }

    /** The threshold is inclusive: a score equal to it passes. */
    function MeetsConfidenceThreshold(score: real): (meets: bool)
      ensures score == minConfidenceThreshold ==> meets
      ensures meets <==> !(score < minConfidenceThreshold)
    {
      score >= minConfidenceThreshold
    }

    /** The test `filter_entities` applies to each analyzer result. */
    predicate Keeps(span: EntitySpan) {
      IsEntityAllowed(span.entityType) && MeetsConfidenceThreshold(span.score)
    }
  }

  const GeneralPolicy: RedactionPolicy := RedactionPolicy(
    "general",
    ["PERSON", "EMAIL_ADDRESS", "PHONE_NUMBER", "CREDIT_CARD", "US_SSN",
     "US_DRIVER_LICENSE", "US_PASSPORT", "IBAN_CODE", "IP_ADDRESS", "DATE_TIME",
     "LOCATION", "URL", "US_BANK_NUMBER"],
    [],
    true,
    0.0,
    "General purpose policy - redacts all PII types with restoration allowed")

  const HealthcarePolicy: RedactionPolicy := RedactionPolicy(
    "healthcare",
    ["PERSON", "PHONE_NUMBER", "EMAIL_ADDRESS", "US_SSN", "DATE_TIME", "LOCATION",
     "IP_ADDRESS"],
    [],
    false,
    0.5,
    "Healthcare policy (HIPAA-compliant) - redacts PHI with no restoration")

  const FinancePolicy: RedactionPolicy := RedactionPolicy(
    "finance",
    ["PERSON", "US_SSN", "CREDIT_CARD", "IBAN_CODE", "PHONE_NUMBER", "EMAIL_ADDRESS",
     "US_BANK_NUMBER", "US_DRIVER_LICENSE"],
    [],
    false,
    0.6,
    "Finance policy (PCI-DSS) - redacts financial PII with no restoration")

  /** The three presets: only the general one allows restoration, and the thresholds are 0.0, 0.5 and 0.6. */
  lemma PresetsAreFixed()
    ensures GeneralPolicy.context == "general" && GeneralPolicy.restorationAllowed
    ensures GeneralPolicy.minConfidenceThreshold == 0.0
    ensures HealthcarePolicy.context == "healthcare" && !HealthcarePolicy.restorationAllowed
    ensures HealthcarePolicy.minConfidenceThreshold == 0.5
    ensures FinancePolicy.context == "finance" && !FinancePolicy.restorationAllowed
    ensures FinancePolicy.minConfidenceThreshold == 0.6
    ensures GeneralPolicy.disabledEntities == [] && HealthcarePolicy.disabledEntities == []
    ensures FinancePolicy.disabledEntities == []
  {
  }

  /**
   * A request-level override, as a dictionary: `Some` for a key that is
   * present, `None` for one that is absent.
   */
  datatype PolicyOverride = PolicyOverride(
    context: Option<string>,
    enabledEntities: Option<seq<string>>,
    disabledEntities: Option<seq<string>>,
    restorationAllowed: Option<bool>,
    minConfidenceThreshold: Option<real>,
    description: Option<string>)
  {
    /** The empty dictionary, which Python reads as false. */
    predicate IsEmpty() {
      && context.None? && enabledEntities.None? && disabledEntities.None?
      && restorationAllowed.None? && minConfidenceThreshold.None? && description.None?
    }

    /** What request validation admits: a threshold, when given, lies in [0, 1]. */
    predicate IsValidRequest() {
      minConfidenceThreshold.Some? ==> 0.0 <= minConfidenceThreshold.value <= 1.0
    }
  }

  function GetOr<T>(key: Option<T>, default: T): T {
    match key
    case Some(v) => v
    case None => default
  }

  /**
   * `merge_policies`: with no override (absent or empty) the base policy is
   * returned; otherwise each field is the override's when its key is present
   * and the base's when it is absent.
   */
  function MergePolicies(globalPolicy: RedactionPolicy, requestPolicy: Option<PolicyOverride>): (merged: RedactionPolicy)
    ensures requestPolicy.None? || requestPolicy.value.IsEmpty() ==> merged == globalPolicy
    ensures requestPolicy.Some? ==>
      var o := requestPolicy.value;
      && merged.context == (if o.context.Some? then o.context.value else globalPolicy.context)
      && merged.enabledEntities == (if o.enabledEntities.Some? then o.enabledEntities.value else globalPolicy.enabledEntities)
      && merged.disabledEntities == (if o.disabledEntities.Some? then o.disabledEntities.value else globalPolicy.disabledEntities)
      && merged.restorationAllowed == (if o.restorationAllowed.Some? then o.restorationAllowed.value else globalPolicy.restorationAllowed)
      && merged.minConfidenceThreshold == (if o.minConfidenceThreshold.Some? then o.minConfidenceThreshold.value else globalPolicy.minConfidenceThreshold)
      && merged.description == (if o.description.Some? then o.description.value else globalPolicy.description)
  {
    if requestPolicy.None? || requestPolicy.value.IsEmpty() then globalPolicy
    else
      var o := requestPolicy.value;
      RedactionPolicy(
        GetOr(o.context, globalPolicy.context),
        GetOr(o.enabledEntities, globalPolicy.enabledEntities),
        GetOr(o.disabledEntities, globalPolicy.disabledEntities),
        GetOr(o.restorationAllowed, globalPolicy.restorationAllowed),
        GetOr(o.minConfidenceThreshold, globalPolicy.minConfidenceThreshold),
        GetOr(o.description, globalPolicy.description))
  }

  /** Applying the same override twice is the same as applying it once. */
  lemma MergeIdempotent(base: RedactionPolicy, o: Option<PolicyOverride>)
    ensures MergePolicies(MergePolicies(base, o), o) == MergePolicies(base, o)
  {
  }

  /** A validated override keeps the threshold of a policy whose threshold is in [0, 1] within [0, 1]. */
  lemma MergeKeepsThresholdInRange(base: RedactionPolicy, o: PolicyOverride)
    requires 0.0 <= base.minConfidenceThreshold <= 1.0 && o.IsValidRequest()
    ensures 0.0 <= MergePolicies(base, Some(o)).minConfidenceThreshold <= 1.0
  {
  }

  /** The stable filter `filter_entities` computes: the kept results, in their original order. */
  function Filtered(spans: seq<EntitySpan>, policy: RedactionPolicy): seq<EntitySpan>
    decreases |spans|
  {
    if |spans| == 0 then []
    else (if policy.Keeps(spans[0]) then [spans[0]] else []) + Filtered(spans[1..], policy)
  }

  /** Filtering distributes over concatenation: no result moves across another. */
  lemma {:induction false} FilteredAppend(a: seq<EntitySpan>, b: seq<EntitySpan>, policy: RedactionPolicy)
    ensures Filtered(a + b, policy) == Filtered(a, policy) + Filtered(b, policy)
    decreases |a|
  {
    if |a| == 0 {
      assert a + b == b;
    } else {
      assert (a + b)[0] == a[0];
      assert (a + b)[1..] == a[1..] + b;
      FilteredAppend(a[1..], b, policy);
    }
  }

  /** `r` is `s` with some elements dropped and the rest in their order. */
  predicate IsSubsequence<T(==)>(r: seq<T>, s: seq<T>)
    decreases |s|
  {
    if |r| == 0 then true
    else if |s| == 0 then false
    else if r[0] == s[0] then IsSubsequence(r[1..], s[1..])
    else IsSubsequence(r, s[1..])
  }

  lemma {:induction false} SubsequenceOfTail<T>(r: seq<T>, s: seq<T>)
    requires |s| > 0 && IsSubsequence(r, s[1..])
    ensures IsSubsequence(r, s)
    decreases |s|, |r|, 1
  {
    if |r| > 0 && r[0] == s[0] {
      SubsequenceDropHead(r, s[1..]);
    }
  }

  lemma {:induction false} SubsequenceDropHead<T>(r: seq<T>, s: seq<T>)
    requires |r| > 0 && IsSubsequence(r, s)
    ensures IsSubsequence(r[1..], s)
    decreases |s|, |r|, 0
  {
    if |s| > 0 {
      if r[0] == s[0] {
        SubsequenceOfTail(r[1..], s);
      } else {
        SubsequenceDropHead(r, s[1..]);
        SubsequenceOfTail(r[1..], s);
      }
    }
  }

  /**
   * `filter_entities` is a stable filter: it keeps exactly the results the
   * policy keeps, each as often as it occurs, in their original order.
   */
  lemma {:induction false} FilteredIsStableFilter(spans: seq<EntitySpan>, policy: RedactionPolicy)
    ensures IsSubsequence(Filtered(spans, policy), spans)
    ensures forall x :: x in Filtered(spans, policy) <==> x in spans && policy.Keeps(x)
    ensures forall x :: multiset(Filtered(spans, policy))[x] == if policy.Keeps(x) then multiset(spans)[x] else 0
    decreases |spans|
  {
    if |spans| > 0 {
      var r := Filtered(spans, policy);
      var rest := Filtered(spans[1..], policy);
      FilteredIsStableFilter(spans[1..], policy);
      assert spans == [spans[0]] + spans[1..];
      if policy.Keeps(spans[0]) {
        assert r[0] == spans[0] && r[1..] == rest;
      } else {
        assert r == rest;
        SubsequenceOfTail(r, spans);
      }
    }
  }

  /** Filtering twice with the same policy is filtering once. */
  lemma {:induction false} FilteredIdempotent(spans: seq<EntitySpan>, policy: RedactionPolicy)
    ensures Filtered(Filtered(spans, policy), policy) == Filtered(spans, policy)
    decreases |spans|
  {
    if |spans| > 0 {
      FilteredIdempotent(spans[1..], policy);
      if policy.Keeps(spans[0]) {
        var r := Filtered(spans, policy);
        assert r[0] == spans[0] && r[1..] == Filtered(spans[1..], policy);
        assert policy.Keeps(r[0]);
        assert Filtered(r, policy) == [r[0]] + Filtered(r[1..], policy);
      } else {
        assert Filtered(spans, policy) == [] + Filtered(spans[1..], policy);
        assert [] + Filtered(spans[1..], policy) == Filtered(spans[1..], policy);
      }
    }
  }

  datatype PolicyError = UnknownContext(context: string, available: seq<string>)

  predicate NoDuplicates<T(==)>(s: seq<T>) {
    forall i, j :: 0 <= i < j < |s| ==> s[i] != s[j]
  }

  /**
   * The registry of named policies. `contexts` is the key order of the Python
   * dictionary (insertion order, which re-registering a context keeps).
   */
  class PolicyEngine {
    var policies: map<string, RedactionPolicy>
    var contexts: seq<string>

    ghost predicate Valid()
      reads this
    {
      && (forall c :: c in policies <==> c in contexts)
      && NoDuplicates(contexts)
      && (forall c :: c in policies ==> policies[c].context == c)
    }

    constructor ()
      ensures Valid()
      ensures policies == map["general" := GeneralPolicy, "healthcare" := HealthcarePolicy, "finance" := FinancePolicy]
      ensures contexts == ["general", "healthcare", "finance"]
    {
      policies := map["general" := GeneralPolicy, "healthcare" := HealthcarePolicy, "finance" := FinancePolicy];
      contexts := ["general", "healthcare", "finance"];
    }

    /** `load_policy`: the registered policy for a known context; `UnknownContext` (a `ValueError`) otherwise. */
    function LoadPolicy(context: string): (r: Result<RedactionPolicy, PolicyError>)
      reads this
      ensures r.Success? <==> context in policies
      ensures r.Success? ==> r.value == policies[context]
      ensures r.Failure? ==> r.error == UnknownContext(context, contexts)
    {
      if context !in policies then Failure(UnknownContext(context, contexts))
      else Success(policies[context])
    }

    /** The policy loaded for a context is the one registered under that context's name. */
    lemma LoadedPolicyHasItsContext(context: string)
      requires Valid() && LoadPolicy(context).Success?
      ensures LoadPolicy(context).value.context == context
    {
    }

    /**
     * `get_available_contexts`: each registered context once, in registration
     * order; `contexts` holds that order, as the constructor and
     * `RegisterPolicy` state.
     */
    function GetAvailableContexts(): (r: seq<string>)
      reads this
      requires Valid()
      ensures forall c :: c in r <==> LoadPolicy(c).Success?
      ensures NoDuplicates(r)
      ensures r == contexts
    {
      contexts
    }

    /**
     * `filter_entities`: walks the results and appends each one the policy
     * keeps; the result is the stable filter `Filtered`.
     */
    method FilterEntities(analyzerResults: seq<EntitySpan>, policy: RedactionPolicy) returns (filtered: seq<EntitySpan>)
      ensures filtered == Filtered(analyzerResults, policy)
    {
      filtered := [];
      var i := 0;
      while i < |analyzerResults|
        invariant 0 <= i <= |analyzerResults|
        invariant filtered == Filtered(analyzerResults[..i], policy)
      {
        var result := analyzerResults[i];
        FilteredAppend(analyzerResults[..i], [result], policy);
        assert analyzerResults[..i + 1] == analyzerResults[..i] + [result];
        i := i + 1;
        if !policy.IsEntityAllowed(result.entityType) {
          continue;
        }
        if !policy.MeetsConfidenceThreshold(result.score) {
          continue;
        }
        filtered := filtered + [result];
      }
      assert analyzerResults[..i] == analyzerResults;
    }

    /**
     * `register_policy`: stores the policy under its own context, replacing
     * any policy registered there; every other context keeps its policy.
     */
    method RegisterPolicy(policy: RedactionPolicy)
      requires Valid()
      modifies this
      ensures Valid()
      ensures policies == old(policies)[policy.context := policy]
      ensures contexts == if policy.context in old(policies) then old(contexts) else old(contexts) + [policy.context]
      ensures LoadPolicy(policy.context) == Success(policy)
      ensures forall c :: c != policy.context ==> LoadPolicy(c).Success? == old(LoadPolicy(c)).Success?
      ensures forall c :: c != policy.context && c in old(policies) ==> LoadPolicy(c) == old(LoadPolicy(c))
    {
      if policy.context !in policies {
        contexts := contexts + [policy.context];
      }
      policies := policies[policy.context := policy];
    }
  }
}
