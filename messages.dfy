/** Parcels and send conditions (controller/message.h). A parcel carries a
    message, its parameters and a timing: immediate, or conditional on a
    condition asked each time the queue is flushed. Conditions that refer to
    variables read them through an environment at the time they are asked. */
module Messages {
  import opened Parameters

  /** The program state conditions may look at: the current value of each
      referenced variable, the current result of each nullary predicate, and
      the current answer of each condition class the library does not know. */
  datatype Env = Env(vars: int -> int, preds: int -> bool, custom: int -> bool)

  /** The conditions of message.h (`timed` excepted) plus user-defined ones. */
  datatype Condition =
    | LessThanValue(variable: int, value: int)
    | LessThanVariable(variable: int, other: int)
    | EqualToValue(variable: int, value: int)
    | EqualToVariable(variable: int, other: int)
    | IsNot(inner: Condition)
    | IfTrue(test: int)
    | Custom(condition: int)

  /** `send()` of a condition, asked in the environment `env`. */
  predicate Holds(c: Condition, env: Env) {
    match c
    case LessThanValue(x, v) => env.vars(x) < v
    case LessThanVariable(x, y) => env.vars(x) < env.vars(y)
    case EqualToValue(x, v) => env.vars(x) == v
    case EqualToVariable(x, y) => env.vars(x) == env.vars(y)
    case IsNot(inner) => !Holds(inner, env)
    case IfTrue(pr) => env.preds(pr)
    case Custom(k) => env.custom(k)
  }

  /** How a parcel is released: at once, or when its condition holds. */
  datatype Timing = Immediate | Conditional(condition: Condition)

  /** `parcel`: the message, its parameters and its timing. */
  datatype Parcel = Parcel(message: Param, parameters: ParamList, timing: Timing)

  /** `parcel(msg)`: no parameters, sent immediately. */
  function Simple(msg: Param): (p: Parcel)
    ensures p.message == msg && p.parameters == [] && p.timing.Immediate?
  {
    Parcel(msg, [], Immediate)
  }

  /** `parcel(msg, cond)`: no parameters, sent when `cond` holds. */
  function WithCondition(msg: Param, cond: Condition): (p: Parcel)
    ensures p.message == msg && p.parameters == [] && p.timing == Conditional(cond)
  {
    Parcel(msg, [], Conditional(cond))
  }

  /** `parcel(msg, params)`: sent immediately. */
  function WithParameters(msg: Param, params: ParamList): (p: Parcel)
    ensures p.message == msg && p.parameters == params && p.timing.Immediate?
  {
    Parcel(msg, params, Immediate)
  }

  /** `parcel(msg, params, cond)`: sent when `cond` holds. */
  function WithParametersAndCondition(msg: Param, params: ParamList, cond: Condition): (p: Parcel)
    ensures p.message == msg && p.parameters == params && p.timing == Conditional(cond)
  {
    Parcel(msg, params, Conditional(cond))
  }

  /** `parcel::send()`: an immediate parcel is always ready, a conditional
      one exactly when its condition holds. */
  predicate Send(p: Parcel, env: Env) {
    match p.timing
    case Immediate => true
    case Conditional(c) => Holds(c, env)
  }

  /** `operator()(param)`: append one parameter. */
  function Chain(p: Parcel, param: Param): (q: Parcel)
    ensures q.parameters == p.parameters + [param]
    ensures q.message == p.message && q.timing == p.timing
  {
    p.(parameters := p.parameters + [param])
  }

  /** Appending several parameters in turn, as `p(a)(b)(c)` does. */
  function ChainAll(p: Parcel, params: ParamList): Parcel {
    if |params| == 0 then p else Chain(ChainAll(p, params[..|params| - 1]), params[|params| - 1])
  }

  /** Each parcel constructor releases its parcel as documented: the ones
      without a condition in every environment, the ones with a condition in
      exactly the environments where it holds. */
  lemma ConstructorsSend(msg: Param, params: ParamList, cond: Condition, env: Env)
    ensures Send(Simple(msg), env) && Send(WithParameters(msg, params), env)
    ensures Send(WithCondition(msg, cond), env) <==> Holds(cond, env)
    ensures Send(WithParametersAndCondition(msg, params, cond), env) <==> Holds(cond, env)
  {
  }

  /** Of a parcel conditioned on `c` and the same parcel conditioned on
      `is_not(c)`, exactly one is released in any state, and wrapping twice
      releases exactly when `c` holds. */
  lemma NegationReleases(msg: Param, params: ParamList, c: Condition, env: Env)
    ensures Send(WithParametersAndCondition(msg, params, IsNot(c)), env) <==>
      !Send(WithParametersAndCondition(msg, params, c), env)
    ensures Send(WithCondition(msg, IsNot(c)), env) <==> !Send(WithCondition(msg, c), env)
    ensures Send(WithCondition(msg, IsNot(IsNot(c))), env) <==> Send(WithCondition(msg, c), env)
  {
  }

  /** Chaining parameters appends them in order and changes neither the
      message nor when the parcel is sent; so `parcel(msg)(a)(b)` is
      `parcel(msg, [a, b])`. */
  lemma {:induction false} ChainAllAppends(p: Parcel, params: ParamList, env: Env)
    ensures ChainAll(p, params).parameters == p.parameters + params
    ensures ChainAll(p, params).message == p.message && ChainAll(p, params).timing == p.timing
    ensures Send(ChainAll(p, params), env) <==> Send(p, env)
  {
    if |params| > 0 {
      var init := params[..|params| - 1];
      ChainAllAppends(p, init, env);
      assert params == init + [params[|params| - 1]];
    }
  }

  lemma ChainBuildsParameters(msg: Param, params: ParamList)
    ensures ChainAll(Simple(msg), params) == WithParameters(msg, params)
  {
    ChainAllAppends(Simple(msg), params, Env(x => 0, x => true, x => true));
  }
}
