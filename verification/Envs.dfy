/** Environment variables: lists of NAME=VALUE strings merged into one, the last value of a name winning. */
module Envs {
  datatype Parts = Invalid | Pair(name: string, value: string)

  datatype Result = Ok(env: seq<string>) | InvalidVariable(str: string)

  /** strings.SplitN(str, "=", 2), Invalid when it has a single part. */
  function Split(str: string): Parts {
    if str == "" then Invalid
    else if str[0] == '=' then Pair("", str[1..])
    else
      match Split(str[1..])
      case Invalid => Invalid
      case Pair(name, value) => Pair([str[0]] + name, value)
  }

  function Join(name: string, value: string): string {
    name + "=" + value
  }

  /** A string splits in exactly one way: at its first '='. */
  lemma {:induction false} SplitExact(str: string, name: string, value: string)
    ensures Split(str) == Pair(name, value) <==> str == Join(name, value) && '=' !in name
    decreases |str|
  {
    if str == "" {
      assert |Join(name, value)| > 0;
    } else if str[0] == '=' {
      if name == "" {
        assert Join(name, value) == ['='] + value;
        assert str == ['='] + str[1..];
      } else {
        assert Join(name, value)[0] == name[0];
      }
    } else if name == "" {
      assert Join(name, value)[0] == '=';
    } else {
      SplitExact(str[1..], name[1..], value);
      assert Join(name, value) == [name[0]] + Join(name[1..], value);
      assert str == [str[0]] + str[1..];
      assert name == [name[0]] + name[1..];
      assert '=' in name <==> name[0] == '=' || '=' in name[1..];
    }
  }

  lemma {:induction false} SplitInvalid(str: string)
    ensures Split(str) == Invalid <==> '=' !in str
    decreases |str|
  {
    if str != "" && str[0] != '=' {
      SplitInvalid(str[1..]);
      assert str == [str[0]] + str[1..];
    }
  }

  function Flat(envs: seq<seq<string>>): seq<string> {
    if envs == [] then [] else envs[0] + Flat(envs[1..])
  }

  lemma {:induction false} FlatConcat(a: seq<seq<string>>, b: seq<seq<string>>)
    ensures Flat(a + b) == Flat(a) + Flat(b)
  {
    if a == [] {
      assert a + b == b;
    } else {
      assert (a + b)[1..] == a[1..] + b;
      FlatConcat(a[1..], b);
    }
  }

  predicate Valid(strs: seq<string>) {
    forall i :: 0 <= i < |strs| ==> Split(strs[i]).Pair?
  }

  lemma {:induction false} ValidMeans(strs: seq<string>)
    ensures Valid(strs) <==> forall i :: 0 <= i < |strs| ==> '=' in strs[i]
  {
    forall i | 0 <= i < |strs| ensures Split(strs[i]).Pair? <==> '=' in strs[i] {
      SplitInvalid(strs[i]);
    }
  }

  /** The map that the first loop fills. */
  function Merge(strs: seq<string>): map<string, string>
    requires Valid(strs)
  {
    if strs == [] then map[]
    else
      var last := Split(strs[|strs| - 1]);
      Merge(strs[..|strs| - 1])[last.name := last.value]
  }

  /** `i` is the last place where `name` is given a value, and the value is `value`. */
  predicate LastWriter(strs: seq<string>, i: int, name: string, value: string) {
    && 0 <= i < |strs|
    && Split(strs[i]) == Pair(name, value)
    && forall j :: i < j < |strs| ==> Split(strs[j]).Invalid? || Split(strs[j]).name != name
  }

  /** A name has a value in the merged map exactly when that is the value of its last occurrence. */
  lemma {:induction false} LastWriterWins(strs: seq<string>, name: string, value: string)
    requires Valid(strs)
    ensures name in Merge(strs) && Merge(strs)[name] == value <==> exists i :: LastWriter(strs, i, name, value)
    decreases |strs|
  {
    if strs != [] {
      var n := |strs| - 1;
      var init := strs[..n];
      LastWriterWins(init, name, value);
      if Split(strs[n]).name == name {
        if Split(strs[n]).value == value {
          assert LastWriter(strs, n, name, value);
        }
      } else {
        forall i | LastWriter(init, i, name, value) ensures LastWriter(strs, i, name, value) {
        }
        forall i | LastWriter(strs, i, name, value) ensures LastWriter(init, i, name, value) {
        }
      }
    }
  }

  /** Every name of the map is the name of some string, so it has no '='. */
  lemma {:induction false} MergedNamesAreClean(strs: seq<string>)
    requires Valid(strs)
    ensures forall name :: name in Merge(strs) ==> '=' !in name
    decreases |strs|
  {
    if strs != [] {
      MergedNamesAreClean(strs[..|strs| - 1]);
      var last := Split(strs[|strs| - 1]);
      SplitExact(strs[|strs| - 1], last.name, last.value);
    }
  }

  /** The later list overrides the earlier one. */
  lemma {:induction false} MergeConcat(a: seq<string>, b: seq<string>)
    requires Valid(a) && Valid(b)
    ensures Valid(a + b) && Merge(a + b) == Merge(a) + Merge(b)
    decreases |b|
  {
    if b == [] {
      assert a + b == a;
    } else {
      var n := |b| - 1;
      assert (a + b)[..|a + b| - 1] == a + b[..n];
      MergeConcat(a, b[..n]);
    }
  }

  // Putting the map back into a list, in the order in which the map happens to be iterated.

  predicate Enumerates(order: seq<string>, names: set<string>) {
    && (forall i, j :: 0 <= i < j < |order| ==> order[i] != order[j])
    && (forall name :: name in names ==> name in order)
    && (forall i :: 0 <= i < |order| ==> order[i] in names)
  }

  function Render(order: seq<string>, m: map<string, string>): seq<string>
    requires forall i :: 0 <= i < |order| ==> order[i] in m
  {
    seq(|order|, i requires 0 <= i < |order| => Join(order[i], m[order[i]]))
  }

  /** `env` lists the map in some iteration order. */
  ghost predicate Lists(env: seq<string>, m: map<string, string>) {
    exists order :: Enumerates(order, m.Keys) && env == Render(order, m)
  }

  /** The first invalid string, in the order of the lists. */
  predicate FirstInvalid(strs: seq<string>, str: string) {
    exists i :: 0 <= i < |strs| && str == strs[i] && '=' !in str && Valid(strs[..i])
  }

  /** resolveEnvs: any iteration order of the map is possible. */
  method ResolveEnvs(envs: seq<seq<string>>) returns (r: Result)
    ensures r.Ok? <==> Valid(Flat(envs))
    ensures r.Ok? ==> Lists(r.env, Merge(Flat(envs)))
    ensures r.InvalidVariable? ==> FirstInvalid(Flat(envs), r.str)
    ensures r.Ok? <==> forall i :: 0 <= i < |Flat(envs)| ==> '=' in Flat(envs)[i]
  {
    ValidMeans(Flat(envs));
    var envMap: map<string, string> := map[];
    assert Flat(envs[..0]) == [];
    for e := 0 to |envs|
      invariant Valid(Flat(envs[..e])) && envMap == Merge(Flat(envs[..e]))
    {
      ghost var done := Flat(envs[..e]);
      assert done + envs[e][..0] == done;
      for s := 0 to |envs[e]|
        invariant Valid(done + envs[e][..s]) && envMap == Merge(done + envs[e][..s])
      {
        var parts := Split(envs[e][s]);
        if parts.Invalid? {
          InvalidFound(envs, e, s);
          return InvalidVariable(envs[e][s]);
        }
        envMap := envMap[parts.name := parts.value];
        MergeSnoc(done + envs[e][..s], envs[e][s]);
        assert done + envs[e][..s] + [envs[e][s]] == done + envs[e][..s + 1];
      }
      assert envs[e][..|envs[e]|] == envs[e];
      FlatSnoc(envs, e);
    }
    assert envs[..|envs|] == envs;
    var env := Reassemble(envMap);
    return Ok(env);
  }

  /** The second loop of resolveEnvs. */
  method Reassemble(envMap: map<string, string>) returns (env: seq<string>)
    ensures Lists(env, envMap)
  {
    env := [];
    var rest := envMap.Keys;
    ghost var order: seq<string> := [];
    while rest != {}
      invariant rest <= envMap.Keys && Enumerates(order, envMap.Keys - rest)
      invariant env == Render(order, envMap)
      decreases |rest|
    {
      var k :| k in rest;
      env := env + [Join(k, envMap[k])];
      EnumeratesSnoc(order, envMap.Keys - rest, k);
      assert envMap.Keys - (rest - {k}) == envMap.Keys - rest + {k};
      order, rest := order + [k], rest - {k};
    }
    assert envMap.Keys - rest == envMap.Keys;
  }

  lemma {:induction false} MergeSnoc(strs: seq<string>, str: string)
    requires Valid(strs) && Split(str).Pair?
    ensures Valid(strs + [str]) && Merge(strs + [str]) == Merge(strs)[Split(str).name := Split(str).value]
  {
    assert (strs + [str])[..|strs|] == strs;
  }

  lemma FlatSnoc(envs: seq<seq<string>>, e: nat)
    requires e < |envs|
    ensures Flat(envs[..e + 1]) == Flat(envs[..e]) + envs[e]
  {
    assert envs[..e + 1] == envs[..e] + [envs[e]];
    FlatConcat(envs[..e], [envs[e]]);
    FlatSingle(envs[e]);
  }

  lemma FlatSingle(strs: seq<string>)
    ensures Flat([strs]) == strs
  {
    assert [strs][1..] == [];
  }

  lemma InvalidFound(envs: seq<seq<string>>, e: nat, s: nat)
    requires e < |envs| && s < |envs[e]|
    requires Valid(Flat(envs[..e]) + envs[e][..s]) && Split(envs[e][s]).Invalid?
    ensures FirstInvalid(Flat(envs), envs[e][s]) && !Valid(Flat(envs))
  {
    SplitInvalid(envs[e][s]);
    FlatSnoc(envs, e);
    assert envs == envs[..e + 1] + envs[e + 1..];
    FlatConcat(envs[..e + 1], envs[e + 1..]);
    var done, flat := Flat(envs[..e]), Flat(envs);
    var i := |done| + s;
    assert flat[i] == envs[e][s];
    assert flat[..i] == done + envs[e][..s];
  }

  lemma EnumeratesSnoc(order: seq<string>, names: set<string>, name: string)
    requires Enumerates(order, names) && name !in names
    ensures Enumerates(order + [name], names + {name})
  {
  }

  // What callers can rely on.

  lemma {:induction false} RenderSplits(order: seq<string>, m: map<string, string>, i: nat)
    requires Enumerates(order, m.Keys) && i < |order|
    requires forall name :: name in m ==> '=' !in name
    ensures Split(Render(order, m)[i]) == Pair(order[i], m[order[i]])
  {
    SplitExact(Render(order, m)[i], order[i], m[order[i]]);
  }

  /** These strings are valid, and set exactly these names to their values in `m`. */
  ghost predicate Sets(strs: seq<string>, names: seq<string>, m: map<string, string>) {
    && Valid(strs)
    && (forall name :: name in Merge(strs) <==> name in names)
    && (forall name :: name in Merge(strs) ==> name in m && Merge(strs)[name] == m[name])
  }

  lemma {:induction false} SetsNext(strs: seq<string>, names: seq<string>, m: map<string, string>, str: string, name: string)
    requires Sets(strs, names, m) && name in m && Split(str) == Pair(name, m[name])
    ensures Sets(strs + [str], names + [name], m)
  {
    MergeSnoc(strs, str);
  }

  /** The output up to the n-th string holds the first n names, with their values. */
  lemma {:induction false} RenderedMergesBack(order: seq<string>, m: map<string, string>, n: nat)
    requires Enumerates(order, m.Keys) && n <= |order|
    requires forall name :: name in m ==> '=' !in name
    ensures Sets(Render(order, m)[..n], order[..n], m)
  {
    if n > 0 {
      RenderedMergesBack(order, m, n - 1);
      RenderSplits(order, m, n - 1);
      SetsPrefix(Render(order, m), order, m, n - 1);
    }
  }

  lemma {:induction false} SetsPrefix(env: seq<string>, order: seq<string>, m: map<string, string>, n: nat)
    requires n < |env| == |order| && order[n] in m && Split(env[n]) == Pair(order[n], m[order[n]])
    requires Sets(env[..n], order[..n], m)
    ensures Sets(env[..n + 1], order[..n + 1], m)
  {
    SetsNext(env[..n], order[..n], m, env[n], order[n]);
    assert env[..n + 1] == env[..n] + [env[n]];
    assert order[..n + 1] == order[..n] + [order[n]];
  }

  lemma SameMap(a: map<string, string>, b: map<string, string>)
    requires forall name :: name in a <==> name in b
    requires forall name :: name in a ==> a[name] == b[name]
    ensures a == b
  {
  }

  /** However it was ordered, the output is valid again and merges to the same map. */
  lemma ListingMergesBack(env: seq<string>, m: map<string, string>)
    requires Lists(env, m) && forall name :: name in m ==> '=' !in name
    ensures Valid(env) && Merge(env) == m
    ensures |env| == |m|
  {
    var order :| Enumerates(order, m.Keys) && env == Render(order, m);
    RenderingMergesBack(order, m);
    EnumerationLength(order, m.Keys);
  }

  lemma RenderingMergesBack(order: seq<string>, m: map<string, string>)
    requires Enumerates(order, m.Keys) && forall name :: name in m ==> '=' !in name
    ensures Valid(Render(order, m)) && Merge(Render(order, m)) == m
  {
    RenderedMergesBack(order, m, |order|);
    assert Render(order, m)[..|order|] == Render(order, m) && order[..|order|] == order;
    SameMap(Merge(Render(order, m)), m);
  }

  lemma {:induction false} RenderSplitsAll(order: seq<string>, m: map<string, string>)
    requires Enumerates(order, m.Keys) && forall name :: name in m ==> '=' !in name
    ensures forall i :: 0 <= i < |order| ==> Split(Render(order, m)[i]) == Pair(order[i], m[order[i]])
  {
    forall i | 0 <= i < |order| ensures Split(Render(order, m)[i]) == Pair(order[i], m[order[i]]) {
      RenderSplits(order, m, i);
    }
  }

  lemma {:induction false} RenderHas(order: seq<string>, m: map<string, string>, name: string)
    requires Enumerates(order, m.Keys) && name in m
    ensures Join(name, m[name]) in Render(order, m)
  {
    var i :| 0 <= i < |order| && order[i] == name;
    assert Render(order, m)[i] == Join(name, m[name]);
  }

  /** Each name occurs in the output exactly once, with its value. */
  lemma {:induction false} OncePerName(env: seq<string>, m: map<string, string>)
    requires Lists(env, m) && forall name :: name in m ==> '=' !in name
    ensures forall i :: 0 <= i < |env| ==> Split(env[i]).Pair? && Split(env[i]).name in m
                                           && Split(env[i]).value == m[Split(env[i]).name]
    ensures forall i, j :: 0 <= i < j < |env| ==> Split(env[i]).name != Split(env[j]).name
    ensures forall name :: name in m ==> Join(name, m[name]) in env
  {
    var order :| Enumerates(order, m.Keys) && env == Render(order, m);
    SplitsTo(env, order, m);
    forall name | name in m ensures Join(name, m[name]) in env {
      RenderHas(order, m, name);
    }
  }

  lemma {:induction false} SplitsTo(env: seq<string>, order: seq<string>, m: map<string, string>)
    requires Enumerates(order, m.Keys) && env == Render(order, m) && forall name :: name in m ==> '=' !in name
    ensures forall i :: 0 <= i < |env| ==> Split(env[i]).Pair? && Split(env[i]).name in m
                                           && Split(env[i]).value == m[Split(env[i]).name]
    ensures forall i, j :: 0 <= i < j < |env| ==> Split(env[i]).name != Split(env[j]).name
  {
    RenderSplitsAll(order, m);
    assert forall i :: 0 <= i < |env| ==> Split(env[i]) == Pair(order[i], m[order[i]]);
  }

  lemma {:induction false} EnumerationLength(order: seq<string>, names: set<string>)
    requires Enumerates(order, names)
    ensures |order| == |names|
    decreases |order|
  {
    if order == [] {
      assert names == {};
    } else {
      var n := |order| - 1;
      EnumerationLength(order[..n], names - {order[n]});
    }
  }

  /** Resolving the output again, alone, changes nothing but possibly the order. */
  lemma Idempotent(envs: seq<seq<string>>, env: seq<string>)
    requires Valid(Flat(envs)) && Lists(env, Merge(Flat(envs)))
    ensures Valid(Flat([env])) && Merge(Flat([env])) == Merge(Flat(envs))
  {
    MergedNamesAreClean(Flat(envs));
    ListingMergesBack(env, Merge(Flat(envs)));
    FlatSingle(env);
  }

  /** Resolving the first lists first, in whatever order that came out, makes no difference to the whole. */
  lemma {:induction false} Incremental(first: seq<seq<string>>, env: seq<string>, more: seq<seq<string>>)
    requires Valid(Flat(first)) && Lists(env, Merge(Flat(first)))
    ensures Valid(Flat([env] + more)) <==> Valid(Flat(first + more))
    ensures Valid(Flat(first + more)) ==> Merge(Flat([env] + more)) == Merge(Flat(first + more))
  {
    Idempotent(first, env);
    FlatConcat([env], more);
    FlatConcat(first, more);
    ValidConcat(Flat([env]), Flat(more));
    ValidConcat(Flat(first), Flat(more));
    if Valid(Flat(more)) {
      MergeConcat(Flat([env]), Flat(more));
      MergeConcat(Flat(first), Flat(more));
    }
  }

  lemma ValidConcat(a: seq<string>, b: seq<string>)
    ensures Valid(a + b) <==> Valid(a) && Valid(b)
  {
    if Valid(a + b) {
      forall i | 0 <= i < |a| ensures Split(a[i]).Pair? {
        assert (a + b)[i] == a[i];
      }
      forall i | 0 <= i < |b| ensures Split(b[i]).Pair? {
        assert (a + b)[|a| + i] == b[i];
      }
    }
  }

  /** Only the sequence of strings counts, not how it is cut into lists. */
  lemma Regrouping(before: seq<seq<string>>, a: seq<string>, b: seq<string>, after: seq<seq<string>>)
    ensures Flat(before + [a, b] + after) == Flat(before + [a + b] + after)
  {
    FlatConcat(before + [a, b], after);
    FlatConcat(before, [a, b]);
    FlatConcat(before + [a + b], after);
    FlatConcat(before, [a + b]);
    assert Flat([a, b]) == a + (b + []) by {
      assert [a, b][1..] == [b] && [b][1..] == [];
    }
    assert Flat([a + b]) == a + b + [];
  }
}
