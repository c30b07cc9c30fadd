/** Data model of session-scoped network rules (rub-core model/session.rs). */
module NetworkRules {
  import opened Collections

  type Headers = map<string, string>

  datatype RuleStatus = Configured | Active | Degraded

  datatype RuleSpec =
    | Rewrite(urlPattern: string, targetBase: string)
    | Block(urlPattern: string)
    | Allow(urlPattern: string)
    | HeaderOverride(urlPattern: string, headers: Headers)

  datatype Rule = Rule(id: nat, status: RuleStatus, spec: RuleSpec)

  datatype EffectKind = RewriteEffect | BlockEffect | AllowEffect | HeaderOverrideEffect

  datatype Effect = Effect(ruleId: nat, kind: EffectKind)

  /** What a rule did to a request, kept until the request is seen to resolve or fail. */
  datatype Correlation = Correlation(
    tabTargetId: Option<string>,
    originalUrl: string,
    rewrittenUrl: Option<string>,
    effectiveHeaders: Option<Headers>,
    effects: seq<Effect>)
}
