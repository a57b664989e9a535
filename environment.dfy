// The abstract environment: a mutable map from identifier names to
// variables.

module EnvironmentDomain {
  import opened Wrappers
  import V = VariableDomain
  import opened SetFacts

  /** The map Environment.join builds: names of one side keep their
    * variable, names of both sides with different variables get the join
    * of the two (the left variable's name is kept). */
  function EnvJoin(l: map<string, V.Variable>, r: map<string, V.Variable>): (m: map<string, V.Variable>)
    ensures m.Keys == l.Keys + r.Keys
    ensures forall k :: k in l && (k !in r || r[k] == l[k]) ==> m[k] == l[k]
    ensures forall k :: k in r && k !in l ==> m[k] == r[k]
    ensures forall k :: k in l && k in r && l[k] != r[k] ==> m[k] == V.Join(l[k], r[k])
  {
    map k | k in l.Keys + r.Keys ::
      if k !in l then r[k] else if k !in r || l[k] == r[k] then l[k] else V.Join(l[k], r[k])
  }

  /** The empty environment is an identity, joining an environment with
    * itself changes nothing, and every variable of a join is equal (by
    * name) to the one the environment it came from held. */
  lemma {:induction false} EnvJoinLaws(l: map<string, V.Variable>, r: map<string, V.Variable>)
    ensures EnvJoin(l, map[]) == l && EnvJoin(map[], r) == r
    ensures EnvJoin(l, l) == l
    ensures forall k :: k in l ==> V.Equals(EnvJoin(l, r)[k], l[k])
    ensures forall k :: k in r && k !in l ==> V.Equals(EnvJoin(l, r)[k], r[k])
  {
    assert EnvJoin(l, map[]) == l;
    assert EnvJoin(map[], r) == r;
    assert EnvJoin(l, l) == l;
    forall k | k in l
      ensures V.Equals(EnvJoin(l, r)[k], l[k])
    {
      if k in r && l[k] != r[k] {
        V.JoinKeepsReceiverName(l[k], r[k]);
      }
    }
  }

  class Environment {
    var env: map<string, V.Variable>

    /** An empty environment. */
    constructor()
      ensures env == map[]
    {
      env := map[];
    }

    constructor FromMap(m: map<string, V.Variable>)
      ensures env == m
    {
      env := m;
    }

    /** Environment.strongUpdate: a new environment in which the name is
      * bound to the variable; the receiver is not changed. */
    method StrongUpdate(name: string, v: V.Variable) returns (e: Environment)
      ensures fresh(e)
      ensures e.env == env[name := v]
    {
      e := new Environment.FromMap(env[name := v]);
    }

    /** Environment.strongUpdateNoCopy: the receiver's own map is
      * updated. */
    method StrongUpdateNoCopy(name: string, v: V.Variable)
      modifies this
      ensures env == old(env)[name := v]
    {
      env := env[name := v];
    }

    /** Environment.weakUpdate: a new environment in which the name's
      * variable is joined with the given one. A name that is not bound
      * dereferences null. */
    method WeakUpdate(name: string, v: V.Variable) returns (r: Result<Environment>)
      ensures r.Err? <==> name !in env
      ensures r.Err? ==> r.error == NullPointer
      ensures r.Ok? ==> fresh(r.value) && r.value.env == env[name := V.Join(env[name], v)]
    {
      if name !in env {
        return Err(NullPointer);
      }
      var e := new Environment.FromMap(env[name := V.Join(env[name], v)]);
      r := Ok(e);
    }

    /** Environment.join: a copy of the receiver's map, into which every
      * binding of the argument is put, joined with the receiver's
      * variable when the two differ. */
    method Join(other: Environment) returns (e: Environment)
      ensures fresh(e)
      ensures e.env == EnvJoin(env, other.env)
    {
      e := new Environment.FromMap(env);
      var rest := other.env.Keys;
      while rest != {}
        invariant rest <= other.env.Keys
        invariant e.env.Keys == env.Keys + (other.env.Keys - rest)
        invariant forall k :: k in e.env ==>
                    e.env[k] == if k !in other.env || k in rest then env[k]
                                else if k !in env then other.env[k]
                                else if env[k] == other.env[k] then env[k]
                                else V.Join(env[k], other.env[k])
        decreases rest
      {
        var k :| k in rest;
        if k !in e.env {
          e.env := e.env[k := other.env[k]];
        }
        if e.env[k] != other.env[k] {
          e.env := e.env[k := V.Join(e.env[k], other.env[k])];
        }
        rest := rest - {k};
      }
      assert e.env == EnvJoin(env, other.env);
    }

    /** Environment.equals: the same number of names, and every name of
      * the argument bound in the receiver to an equal (same-named)
      * variable. */
    function Equals(other: Environment): (r: bool)
      reads this, other
      ensures r <==> env.Keys == other.env.Keys
                     && forall k :: k in env ==> env[k].name == other.env[k].name
    {
      if |env.Keys| != |other.env.Keys| then false
      else if forall k :: k in other.env ==> k in env && V.Equals(env[k], other.env[k]) then
        SubsetSameSizeEqual(other.env.Keys, env.Keys);
        true
      else false
    }
  }
}
