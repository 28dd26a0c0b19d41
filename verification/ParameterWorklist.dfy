/**
 Evaluation of module parameters in dependency order (`evaluate_parameter_list`): a worklist that
 is rotated past parameters that cannot be evaluated yet.

 The expression evaluators of the source are a parameter. `Retry` stands for the exceptions that
 put a parameter back on the list, `Dropped` for an evaluator that returns nothing.
 */
module ParameterWorklist {

  datatype Outcome<+V> = Done(value: V) | Dropped | Retry

  datatype Value<+X, +V> = Immediate(value: V) | Expression(expr: X)

  datatype Parameter<+X, +V> = Parameter(name: string, value: Value<X, V>)

  type Evaluator<!X, !V> = (X, map<string, V>) -> Outcome<V>

  function Attempt<X, V>(eval: Evaluator<X, V>, p: Parameter<X, V>, env: map<string, V>): Outcome<V> {
    match p.value
    case Immediate(v) => Done(v)
    case Expression(x) => eval(x, env)
  }

  ghost predicate Extends<V>(env: map<string, V>, more: map<string, V>) {
    forall n | n in env :: n in more && more[n] == env[n]
  }

  /** More known names never change the outcome of an evaluation that got through. */
  ghost predicate Stable<X(!new), V(!new)>(eval: Evaluator<X, V>) {
    forall x, env, more | Extends(env, more) && !eval(x, env).Retry? :: eval(x, more) == eval(x, env)
  }

  /** No two entries share a name. */
  ghost predicate DistinctNames<X(!new), V(!new)>(params: multiset<Parameter<X, V>>) {
    && (forall p, q | p in params && q in params && p.name == q.name :: p == q)
    && (forall p :: params[p] <= 1)
  }

  /** Every parameter that can be evaluated in `env` has that value in `env`. */
  ghost predicate ClosedUnder<X, V>(eval: Evaluator<X, V>, params: seq<Parameter<X, V>>, env: map<string, V>) {
    forall p | p in params && Attempt(eval, p, env).Done? ::
      p.name in env && env[p.name] == Attempt(eval, p, env).value
  }

  /** `env` is contained in every closed environment. */
  ghost predicate BelowClosed<X, V(!new)>(eval: Evaluator<X, V>, params: seq<Parameter<X, V>>, env: map<string, V>) {
    forall other | ClosedUnder(eval, params, other) :: Extends(env, other)
  }

  ghost predicate LeastClosed<X, V(!new)>(eval: Evaluator<X, V>, params: seq<Parameter<X, V>>, env: map<string, V>) {
    ClosedUnder(eval, params, env) && BelowClosed(eval, params, env)
  }

  /** Exactly the parameters that fail in `env`, as often as they were given. */
  ghost predicate ExactlyFailing<X(!new), V(!new)>(eval: Evaluator<X, V>, params: seq<Parameter<X, V>>,
                                                   env: map<string, V>, invalid: seq<Parameter<X, V>>) {
    forall p :: multiset(invalid)[p] == if Attempt(eval, p, env).Retry? then multiset(params)[p] else 0
  }

  /** All that is settled so far: `done` parameters have their value in `env`, for good. */
  ghost predicate Settled<X, V>(eval: Evaluator<X, V>, done: seq<Parameter<X, V>>, dropped: seq<Parameter<X, V>>,
                                env: map<string, V>) {
    && (forall p | p in done :: p.name in env && Attempt(eval, p, env) == Done(env[p.name]))
    && (forall p | p in dropped :: Attempt(eval, p, env).Dropped?)
  }

  /** `env` holds a value for exactly the names of the evaluated parameters. */
  ghost predicate NamesOf<X, V>(done: seq<Parameter<X, V>>, env: map<string, V>) {
    && (forall p | p in done :: p.name in env)
    && (forall n | n in env :: exists p | p in done :: p.name == n)
  }

  /** Every value in `env` was obtained for a parameter of that name, and what was dropped had none. */
  ghost predicate Obtained<X, V(!new)>(eval: Evaluator<X, V>, done: seq<Parameter<X, V>>,
                                       dropped: seq<Parameter<X, V>>, env: map<string, V>) {
    && (forall n | n in env :: exists p, known | p in done && p.name == n :: Attempt(eval, p, known) == Done(env[n]))
    && (forall p | p in dropped :: exists known :: Attempt(eval, p, known).Dropped?)
  }

  /**
   `env` solves the parameters: immediate values are as given, and an expression has the value that
   it has in `env`, or its name is unknown.
   */
  ghost predicate Solves<X, V>(eval: Evaluator<X, V>, params: seq<Parameter<X, V>>, env: map<string, V>) {
    forall p | p in params ::
      match p.value
      case Immediate(v) => p.name in env && env[p.name] == v
      case Expression(x) =>
        if eval(x, env).Done? then p.name in env && env[p.name] == eval(x, env).value
        else p.name !in env
  }

  lemma NamesOfExtends<X, V>(done: seq<Parameter<X, V>>, env: map<string, V>, p: Parameter<X, V>, v: V)
    requires NamesOf(done, env)
    ensures NamesOf(done + [p], env[p.name := v])
  {
    var more := done + [p];
    var after := env[p.name := v];
    forall n | n in after
      ensures exists q | q in more :: q.name == n
    {
      if n == p.name {
        assert p in more;
      } else {
        var q :| q in done && q.name == n;
        assert q in more;
      }
    }
  }

  lemma ObtainedExtends<X, V(!new)>(eval: Evaluator<X, V>, done: seq<Parameter<X, V>>, dropped: seq<Parameter<X, V>>,
                              env: map<string, V>, p: Parameter<X, V>, v: V)
    requires Obtained(eval, done, dropped, env) && Attempt(eval, p, env) == Done(v)
    ensures Obtained(eval, done + [p], dropped, env[p.name := v])
  {
    var more := done + [p];
    var after := env[p.name := v];
    forall n | n in after
      ensures exists q, known | q in more && q.name == n :: Attempt(eval, q, known) == Done(after[n])
    {
      if n == p.name {
        assert p in more;
      } else {
        var q, known :| q in done && q.name == n && Attempt(eval, q, known) == Done(env[n]);
        assert q in more;
      }
    }
  }

  lemma SettledExtends<X(!new), V(!new)>(eval: Evaluator<X, V>, done: seq<Parameter<X, V>>,
                                         dropped: seq<Parameter<X, V>>, env: map<string, V>,
                                         p: Parameter<X, V>, v: V)
    requires Stable(eval) && Settled(eval, done, dropped, env) && Attempt(eval, p, env) == Done(v)
    requires p.name !in env
    ensures Settled(eval, done + [p], dropped, env[p.name := v])
  {
    assert Extends(env, env[p.name := v]);
  }

  lemma BelowClosedExtends<X(!new), V(!new)>(eval: Evaluator<X, V>, params: seq<Parameter<X, V>>,
                                             env: map<string, V>, p: Parameter<X, V>, v: V)
    requires Stable(eval) && BelowClosed(eval, params, env) && p in params && Attempt(eval, p, env) == Done(v)
    ensures BelowClosed(eval, params, env[p.name := v])
  {
    forall other | ClosedUnder(eval, params, other)
      ensures Extends(env[p.name := v], other)
    {
      assert Extends(env, other);
      assert Attempt(eval, p, other) == Done(v);
    }
  }

  /** With distinct names, a parameter still to be evaluated has a name not yet known. */
  lemma FreshName<X(!new), V(!new)>(all: multiset<Parameter<X, V>>, done: seq<Parameter<X, V>>,
                                    others: multiset<Parameter<X, V>>, env: map<string, V>, p: Parameter<X, V>)
    requires DistinctNames(all) && all == multiset(done) + others + multiset{p}
    requires NamesOf(done, env)
    ensures p.name !in env
  {
    assert all[p] == multiset(done)[p] + others[p] + 1;
    assert p !in multiset(done);
    forall q | q in done
      ensures q.name != p.name
    {
      assert q in multiset(done);
      assert q in all && p in all;
    }
  }

  /** With distinct names, what is settled and left over together solves all parameters. */
  lemma SettledSolves<X(!new), V(!new)>(eval: Evaluator<X, V>, params: seq<Parameter<X, V>>, env: map<string, V>,
                                        done: seq<Parameter<X, V>>, dropped: seq<Parameter<X, V>>,
                                        invalid: seq<Parameter<X, V>>)
    requires multiset(params) == multiset(done) + multiset(dropped) + multiset(invalid)
    requires DistinctNames(multiset(params)) && NamesOf(done, env) && Settled(eval, done, dropped, env)
    requires forall p | p in invalid :: Attempt(eval, p, env).Retry?
    ensures Solves(eval, params, env)
  {
    forall p | p in params && !Attempt(eval, p, env).Done?
      ensures p.name !in env
    {
      assert p in multiset(params) && p !in multiset(done);
      forall q | q in done
        ensures q.name != p.name
      {
        assert q in multiset(done) && q in multiset(params);
      }
    }
    forall p | p in params && Attempt(eval, p, env).Done?
      ensures p in done
    {
      assert p in multiset(params);
      assert p in multiset(done) || p in multiset(dropped) || p in multiset(invalid);
    }
  }

  lemma LeftOver<X(!new), V(!new)>(eval: Evaluator<X, V>, params: seq<Parameter<X, V>>, env: map<string, V>,
                                   done: seq<Parameter<X, V>>, dropped: seq<Parameter<X, V>>,
                                   invalid: seq<Parameter<X, V>>)
    requires multiset(params) == multiset(done) + multiset(dropped) + multiset(invalid)
    requires Settled(eval, done, dropped, env)
    requires forall p | p in invalid :: Attempt(eval, p, env).Retry?
    ensures ClosedUnder(eval, params, env) && ExactlyFailing(eval, params, env, invalid)
  {
    forall p
      ensures multiset(invalid)[p] == if Attempt(eval, p, env).Retry? then multiset(params)[p] else 0
    {
      assert p in multiset(done) <==> p in done;
      assert p in multiset(dropped) <==> p in dropped;
      assert p in multiset(invalid) <==> p in invalid;
    }
    forall p | p in params && Attempt(eval, p, env).Done?
      ensures p.name in env && env[p.name] == Attempt(eval, p, env).value
    {
      assert p in multiset(params);
    }
  }

  /** What holds of the worklist between rounds: its first `failCount` entries failed in `env`. */
  ghost predicate Progress<X(!new), V(!new)>(eval: Evaluator<X, V>, params: seq<Parameter<X, V>>, env: map<string, V>,
                                             done: seq<Parameter<X, V>>, dropped: seq<Parameter<X, V>>,
                                             work: seq<Parameter<X, V>>, failCount: nat) {
    && multiset(params) == multiset(done) + multiset(dropped) + multiset(work)
    && NamesOf(done, env)
    && Obtained(eval, done, dropped, env)
    && failCount <= |work|
    && (forall i | 0 <= i < failCount :: Attempt(eval, work[i], env).Retry?)
    && (Stable(eval) ==> BelowClosed(eval, params, env))
    && (Stable(eval) && DistinctNames(multiset(params)) ==> Settled(eval, done, dropped, env))
  }

  lemma Rotated<X(!new), V(!new)>(eval: Evaluator<X, V>, params: seq<Parameter<X, V>>, env: map<string, V>,
                                  done: seq<Parameter<X, V>>, dropped: seq<Parameter<X, V>>,
                                  rest: seq<Parameter<X, V>>, p: Parameter<X, V>, failCount: nat)
    requires Progress(eval, params, env, done, dropped, rest + [p], failCount)
    requires failCount <= |rest| && Attempt(eval, p, env).Retry?
    ensures Progress(eval, params, env, done, dropped, [p] + rest, failCount + 1)
  {
    forall i | 0 <= i < failCount + 1
      ensures Attempt(eval, ([p] + rest)[i], env).Retry?
    {
      if i > 0 {
        assert ([p] + rest)[i] == (rest + [p])[i - 1];
      }
    }
  }

  lemma Evaluated<X(!new), V(!new)>(eval: Evaluator<X, V>, params: seq<Parameter<X, V>>, env: map<string, V>,
                                    done: seq<Parameter<X, V>>, dropped: seq<Parameter<X, V>>,
                                    rest: seq<Parameter<X, V>>, p: Parameter<X, V>, failCount: nat, v: V)
    requires Progress(eval, params, env, done, dropped, rest + [p], failCount)
    requires Attempt(eval, p, env) == Done(v)
    ensures Progress(eval, params, env[p.name := v], done + [p], dropped, rest, 0)
  {
    NamesOfExtends(done, env, p, v);
    ObtainedExtends(eval, done, dropped, env, p, v);
    if Stable(eval) {
      assert p in multiset(params);
      BelowClosedExtends(eval, params, env, p, v);
      if DistinctNames(multiset(params)) {
        FreshName(multiset(params), done, multiset(dropped) + multiset(rest), env, p);
        SettledExtends(eval, done, dropped, env, p, v);
      }
    }
  }

  lemma Discarded<X(!new), V(!new)>(eval: Evaluator<X, V>, params: seq<Parameter<X, V>>, env: map<string, V>,
                                    done: seq<Parameter<X, V>>, dropped: seq<Parameter<X, V>>,
                                    rest: seq<Parameter<X, V>>, p: Parameter<X, V>, failCount: nat)
    requires Progress(eval, params, env, done, dropped, rest + [p], failCount)
    requires Attempt(eval, p, env).Dropped?
    ensures Progress(eval, params, env, done, dropped + [p], rest, 0)
  {
  }

  /**
   The result accounts for every parameter: `done` ended with a value, `dropped` with none, and
   `invalid` is left over, failing in the final environment. With distinct names and a stable
   evaluator, the environment is the least one closed under the parameters, and solves them.
   */
  method EvaluateParameterList<X(!new, ==), V(!new, ==)>(params: seq<Parameter<X, V>>, eval: Evaluator<X, V>)
    returns (env: map<string, V>, invalid: seq<Parameter<X, V>>,
             ghost done: seq<Parameter<X, V>>, ghost dropped: seq<Parameter<X, V>>)
    ensures multiset(params) == multiset(done) + multiset(dropped) + multiset(invalid)
    ensures NamesOf(done, env) && Obtained(eval, done, dropped, env)
    ensures forall p | p in invalid :: p.value.Expression? && eval(p.value.expr, env).Retry?
    ensures Stable(eval) ==> BelowClosed(eval, params, env)
    ensures Stable(eval) && DistinctNames(multiset(params)) ==>
              && LeastClosed(eval, params, env) && ExactlyFailing(eval, params, env, invalid)
              && Solves(eval, params, env)
  {
    var work := params;
    var failCount := 0;
    env, done, dropped := map[], [], [];
    while work != [] && failCount < |work|
      invariant Progress(eval, params, env, done, dropped, work, failCount)
      decreases |work|, |work| - failCount
    {
      var p, rest := work[|work| - 1], work[..|work| - 1];
      assert work == rest + [p];
      match Attempt(eval, p, env)
      case Retry =>
        Rotated(eval, params, env, done, dropped, rest, p, failCount);
        work := [p] + rest;
        failCount := failCount + 1;
      case Done(v) =>
        Evaluated(eval, params, env, done, dropped, rest, p, failCount, v);
        env := env[p.name := v];
        done := done + [p];
        work := rest;
        failCount := 0;
      case Dropped =>
        Discarded(eval, params, env, done, dropped, rest, p, failCount);
        dropped := dropped + [p];
        work := rest;
        failCount := 0;
    }
    invalid := [];
    if failCount > 0 {
      invalid := work;
    }
    assert invalid == work;
    if Stable(eval) && DistinctNames(multiset(params)) {
      LeftOver(eval, params, env, done, dropped, invalid);
      SettledSolves(eval, params, env, done, dropped, invalid);
    }
  }

  /** The order in which parameters are listed does not matter. */
  lemma PermutationInvariant<X(!new), V(!new)>(eval: Evaluator<X, V>,
                                               params: seq<Parameter<X, V>>, env: map<string, V>,
                                               invalid: seq<Parameter<X, V>>,
                                               params': seq<Parameter<X, V>>, env': map<string, V>,
                                               invalid': seq<Parameter<X, V>>)
    requires multiset(params) == multiset(params')
    requires LeastClosed(eval, params, env) && ExactlyFailing(eval, params, env, invalid)
    requires LeastClosed(eval, params', env') && ExactlyFailing(eval, params', env', invalid')
    ensures env == env'
    ensures multiset(invalid) == multiset(invalid')
  {
    assert forall p :: p in params <==> p in params' by {
      forall p
        ensures p in params <==> p in params'
      {
        assert p in params <==> p in multiset(params);
        assert p in params' <==> p in multiset(params');
      }
    }
    assert ClosedUnder(eval, params, env') && ClosedUnder(eval, params', env);
    assert Extends(env, env') && Extends(env', env);
    assert env.Keys == env'.Keys;
    assert env == env';
    assert forall p :: multiset(invalid)[p] == multiset(invalid')[p];
  }

  // ----- Plain arithmetic is stable -----

  datatype Operator = Add | Sub | Mul | Eq | Ne | Lt | Le | Gt | Ge

  datatype Arithmetic =
    | Number(value: int)
    | Name(name: string)
    | Binary(op: Operator, left: Arithmetic, right: Arithmetic)
    | Conditional(cond: Arithmetic, ifTrue: Arithmetic, ifFalse: Arithmetic)

  function Truth(b: bool): int { if b then 1 else 0 }

  function Apply(op: Operator, a: int, b: int): int {
    match op
    case Add => a + b
    case Sub => a - b
    case Mul => a * b
    case Eq => Truth(a == b)
    case Ne => Truth(a != b)
    case Lt => Truth(a < b)
    case Le => Truth(a <= b)
    case Gt => Truth(a > b)
    case Ge => Truth(a >= b)
  }

  /** Undefined names put the parameter back; only the chosen branch of a conditional is evaluated. */
  function Evaluate(e: Arithmetic, env: map<string, int>): Outcome<int> {
    match e
    case Number(v) => Done(v)
    case Name(n) => if n in env then Done(env[n]) else Retry
    case Binary(op, l, r) =>
      var a, b := Evaluate(l, env), Evaluate(r, env);
      if a.Done? && b.Done? then Done(Apply(op, a.value, b.value)) else Retry
    case Conditional(c, t, f) =>
      var b := Evaluate(c, env);
      if !b.Done? then Retry
      else if b.value != 0 then Evaluate(t, env)
      else Evaluate(f, env)
  }

  /** The value that an operator has for two operands. */
  predicate Operates(op: Operator, a: int, b: int, v: int) {
    match op
    case Add => v - b == a
    case Sub => v + b == a
    case Mul => v == a * b
    case Eq => (v == 1 && a == b) || (v == 0 && a != b)
    case Ne => (v == 0 && a == b) || (v == 1 && a != b)
    case Lt => (v == 1 && a < b) || (v == 0 && b <= a)
    case Le => (v == 1 && a <= b) || (v == 0 && b < a)
    case Gt => (v == 1 && b < a) || (v == 0 && a <= b)
    case Ge => (v == 1 && b <= a) || (v == 0 && a < b)
  }

  /** The value of an expression, as a relation. */
  ghost predicate Yields(e: Arithmetic, env: map<string, int>, v: int) {
    match e
    case Number(n) => v == n
    case Name(n) => (n, v) in env.Items
    case Binary(op, l, r) => exists a, b :: Yields(l, env, a) && Yields(r, env, b) && Operates(op, a, b, v)
    case Conditional(c, t, f) =>
      exists b :: Yields(c, env, b) && (b != 0 ==> Yields(t, env, v)) && (b == 0 ==> Yields(f, env, v))
  }

  lemma ApplyIff(op: Operator, a: int, b: int, v: int)
    ensures Operates(op, a, b, v) <==> v == Apply(op, a, b)
  {
  }

  /** An expression is evaluated to its value if it has one, and fails otherwise. */
  lemma {:induction false} EvaluateIff(e: Arithmetic, env: map<string, int>, v: int)
    ensures Evaluate(e, env) == Done(v) <==> Yields(e, env, v)
    ensures !Evaluate(e, env).Dropped?
  {
    match e
    case Number(_) =>
    case Name(_) =>
    case Binary(op, l, r) =>
      forall a, b
        ensures Yields(l, env, a) && Yields(r, env, b) && Operates(op, a, b, v) <==>
           Evaluate(l, env) == Done(a) && Evaluate(r, env) == Done(b) && v == Apply(op, a, b)
      {
        EvaluateIff(l, env, a);
        EvaluateIff(r, env, b);
        ApplyIff(op, a, b, v);
      }
      EvaluateIff(l, env, 0);
      EvaluateIff(r, env, 0);
    case Conditional(c, t, f) =>
      forall b
        ensures Yields(c, env, b) <==> Evaluate(c, env) == Done(b)
      {
        EvaluateIff(c, env, b);
      }
      EvaluateIff(c, env, 0);
      EvaluateIff(t, env, v);
      EvaluateIff(f, env, v);
  }

  lemma {:induction false} EvaluateExtends(e: Arithmetic, env: map<string, int>, more: map<string, int>)
    requires Extends(env, more) && !Evaluate(e, env).Retry?
    ensures Evaluate(e, more) == Evaluate(e, env)
  {
    match e
    case Number(_) =>
    case Name(_) =>
    case Binary(_, l, r) =>
      EvaluateExtends(l, env, more);
      EvaluateExtends(r, env, more);
    case Conditional(c, t, f) =>
      EvaluateExtends(c, env, more);
      if Evaluate(c, env).value != 0 {
        EvaluateExtends(t, env, more);
      } else {
        EvaluateExtends(f, env, more);
      }
  }

  lemma {:induction false} ArithmeticIsStable()
    ensures Stable(Evaluate)
  {
    forall e, env, more | Extends(env, more) && !Evaluate(e, env).Retry?
      ensures Evaluate(e, more) == Evaluate(e, env)
    {
      EvaluateExtends(e, env, more);
    }
  }

  /** For arithmetic the result does not depend on the order of the parameter list. */
  method EvaluateBothOrders(params: seq<Parameter<Arithmetic, int>>, shuffled: seq<Parameter<Arithmetic, int>>)
    returns (env: map<string, int>, env': map<string, int>)
    requires multiset(params) == multiset(shuffled) && DistinctNames(multiset(params))
    ensures env == env' && LeastClosed(Evaluate, params, env)
  {
    ArithmeticIsStable();
    var invalid, invalid';
    ghost var done, dropped;
    env, invalid, done, dropped := EvaluateParameterList(params, Evaluate);
    env', invalid', done, dropped := EvaluateParameterList(shuffled, Evaluate);
    PermutationInvariant(Evaluate, params, env, invalid, shuffled, env', invalid');
  }
}
