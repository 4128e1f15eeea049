/** The start-up shim for the variable rename: every `REPROLAB_x` and `OPENRESEARCH_x` gets
    its missing counterpart in the process environment. */
module EnvAliases {
  import opened Wrappers
  import opened TextLines

  type Env = map<string, string>

  const LEGACY := "REPROLAB_"
  const CURRENT := "OPENRESEARCH_"

  /** The other name of a renamed variable. */
  function Partner(key: string): Option<string> {
    if StartsWith(key, LEGACY) then Some(CURRENT + key[|LEGACY|..])
    else if StartsWith(key, CURRENT) then Some(LEGACY + key[|CURRENT|..])
    else None
  }

  lemma PartnerOfSuffix(s: string)
    ensures Partner(LEGACY + s) == Some(CURRENT + s)
    ensures Partner(CURRENT + s) == Some(LEGACY + s)
  {
    assert (LEGACY + s)[|LEGACY|..] == s;
    assert (CURRENT + s)[|CURRENT|..] == s;
    assert (CURRENT + s)[0] == 'O';
  }

  /** Each name is the partner of its partner. */
  lemma PartnerInvolution(key: string)
    requires Partner(key).Some?
    ensures Partner(Partner(key).value) == Some(key)
  {
    if StartsWith(key, LEGACY) {
      assert key == LEGACY + key[|LEGACY|..];
      PartnerOfSuffix(key[|LEGACY|..]);
    } else {
      assert key == CURRENT + key[|CURRENT|..];
      PartnerOfSuffix(key[|CURRENT|..]);
    }
  }

  /** The environment after the shim: a name that was unset takes its partner's value. */
  function Aliased(env: Env): Env {
    map k | k in env.Keys + (set j | j in env && Partner(j).Some? :: Partner(j).value)
      :: if k in env then env[k] else if Partner(k).Some? && Partner(k).value in env then env[Partner(k).value] else ""
  }

  /** `items` lists `env` once, in any order. */
  predicate IsSnapshot(items: seq<(string, string)>, env: Env) {
    && (forall k :: k in env ==> exists i :: 0 <= i < |items| && items[i] == (k, env[k]))
    && (forall i :: 0 <= i < |items| ==> items[i].0 in env && env[items[i].0] == items[i].1)
  }

  /** After `n` of the snapshot's items. */
  ghost predicate Progress(env: Env, items: seq<(string, string)>, n: nat, vars: Env)
    requires n <= |items|
  {
    && (forall k :: k in env ==> k in vars && vars[k] == env[k])
    && (forall k :: k in vars ==>
      k in env || (Partner(k).Some? && Partner(k).value in env && vars[k] == env[Partner(k).value]))
    && (forall i :: 0 <= i < n && Partner(items[i].0).Some? ==> Partner(items[i].0).value in vars)
  }

  lemma ProgressDone(env: Env, items: seq<(string, string)>, vars: Env)
    requires IsSnapshot(items, env) && Progress(env, items, |items|, vars)
    ensures vars == Aliased(env)
  {
    forall k | k in vars ensures k in Aliased(env) && Aliased(env)[k] == vars[k] {
      if k !in env {
        PartnerInvolution(k);
        assert k == Partner(Partner(k).value).value;
      }
    }
    forall k | k in Aliased(env) ensures k in vars {
      if k !in env {
        var j :| j in env && Partner(j).Some? && Partner(j).value == k;
        var i :| 0 <= i < |items| && items[i] == (j, env[j]);
      }
    }
  }

  class Environment {
    var vars: Env

    constructor (env: Env)
      ensures vars == env
    {
      vars := env;
    }

    method SetDefault(key: string, value: string)
      modifies this
      ensures vars == if key in old(vars) then old(vars) else old(vars)[key := value]
    {
      if key !in vars {
        vars := vars[key := value];
      }
    }

    /** The shim; `items` is the snapshot it walks while it changes the environment. */
    method ApplyLegacyAliases(items: seq<(string, string)>)
      requires IsSnapshot(items, vars)
      modifies this
      ensures vars == Aliased(old(vars))
    {
      hide Aliased, Partner;
      ghost var env := vars;
      for n := 0 to |items|
        invariant Progress(env, items, n, vars)
      {
        var (key, val) := items[n];
        PartnerCases(key);
        if Partner(key).Some? {
          PartnerInvolution(key);
        }
        if StartsWith(key, LEGACY) {
          SetDefault(CURRENT + key[|LEGACY|..], val);
        } else if StartsWith(key, CURRENT) {
          SetDefault(LEGACY + key[|CURRENT|..], val);
        }
      }
      ProgressDone(env, items, vars);
    }
  }

  lemma PartnerCases(key: string)
    ensures Partner(key) ==
      if StartsWith(key, LEGACY) then Some(CURRENT + key[|LEGACY|..])
      else if StartsWith(key, CURRENT) then Some(LEGACY + key[|CURRENT|..])
      else None
  {
  }

  /** For every suffix both names end up set or neither is; a name set on one side only is
      copied exactly; set names and names outside the rename keep their state. */
  lemma AliasesAgree(env: Env, suffix: string)
    ensures var out, old_, new_ := Aliased(env), "REPROLAB_" + suffix, "OPENRESEARCH_" + suffix;
      && (old_ in out <==> old_ in env || new_ in env)
      && (new_ in out <==> old_ in env || new_ in env)
      && (old_ in env ==> out[old_] == env[old_] && (new_ !in env ==> out[new_] == env[old_]))
      && (new_ in env ==> out[new_] == env[new_] && (old_ !in env ==> out[old_] == env[new_]))
  {
    hide Partner;
    var a, b := LEGACY + suffix, CURRENT + suffix;
    PartnerOfSuffix(suffix);
    forall j | j in env && Partner(j).Some? && (Partner(j).value == a || Partner(j).value == b)
      ensures j == a || j == b
    {
      PartnerInvolution(j);
    }
    if a in env {
      assert Partner(a).value in Aliased(env);
    }
    if b in env {
      assert Partner(b).value in Aliased(env);
    }
  }

  lemma OthersUntouched(env: Env, key: string)
    requires (!("REPROLAB_" <= key) && !("OPENRESEARCH_" <= key)) || key in env
    ensures key in Aliased(env) <==> key in env
    ensures key in env ==> Aliased(env)[key] == env[key]
  {
    PartnerCases(key);
    hide Partner;
    if key in Aliased(env) && key !in env {
      var j :| j in env && Partner(j).Some? && Partner(j).value == key;
      PartnerInvolution(j);
      assert false;
    }
  }

  /** A second run of the shim, as in a child process that inherits the result, adds nothing. */
  lemma AliasingTwice(env: Env)
    ensures Aliased(Aliased(env)) == Aliased(env)
  {
    hide Partner;
    var once := Aliased(env);
    forall j | j in once && Partner(j).Some? ensures Partner(j).value in once {
      PartnerInvolution(j);
      if j !in env {
        var i :| i in env && Partner(i).Some? && Partner(i).value == j;
        PartnerInvolution(i);
      }
    }
    assert Aliased(once).Keys == once.Keys;
  }
}
