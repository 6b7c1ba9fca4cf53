/**
 * The text-rewriting processors of src/FileUtils.ts: Substitute replaces
 * every occurrence of a fixed string in each message, Envsub every
 * `${NAME}` placeholder of an environment variable that has a non-empty
 * value. Both write one text per message and close their writer when the
 * input ends.
 */
module TextRewrite {
  import opened Events
  import opened Replace

  // ----- Substitute -----

  /** The texts Substitute.transform writes, one per message. */
  function SubstituteItems(inputs: seq<string>, pattern: string, replacement: string): seq<Event>
  {
    FlatMap(inputs, (x: string) => [Text(ReplaceAll(x, pattern, replacement))])
  }

  class Substitute {
    const source: string
    const replace: string
    const regexp: bool
    var reg: string

    constructor (source: string, replace: string, regexp: bool)
      ensures this.source == source && this.replace == replace && this.regexp == regexp
    {
      this.source := source;
      this.replace := replace;
      this.regexp := regexp;
    }

    /** After `init` in literal mode: the stored pattern is the source string. */
    predicate Ready()
      reads this
    {
      !regexp && reg == source
    }

    /** `init` in literal mode: the pattern is the source string itself. */
    method Init()
      requires !regexp
      modifies this
      ensures reg == source && Ready()
    {
      reg := source;
    }

    /** `transform`: each message with every occurrence of the pattern replaced, then `close()`. */
    method Transform(w: Writer, inputs: seq<string>)
      requires Ready()
      modifies w
      ensures w.events == old(w.events) + SubstituteItems(inputs, source, replace) + [Close]
    {
      var pattern := reg;
      for i := 0 to |inputs|
        invariant w.events == old(w.events) + SubstituteItems(inputs[..i], pattern, replace)
      {
        FlatMapSnoc(inputs, i, (x: string) => [Text(ReplaceAll(x, pattern, replace))]);
        w.String(ReplaceAll(inputs[i], pattern, replace));
      }
      assert inputs[..|inputs|] == inputs;
      w.Close();
    }
  }

  /** Substitute writes exactly one text per message, in order: the message with the pattern replaced. */
  lemma SubstituteOnePerInput(inputs: seq<string>, pattern: string, replacement: string)
    ensures |SubstituteItems(inputs, pattern, replacement)| == |inputs|
    ensures forall i :: 0 <= i < |inputs| ==>
              SubstituteItems(inputs, pattern, replacement)[i] == Text(ReplaceAll(inputs[i], pattern, replacement))
  {
    FlatMapOne(inputs, (x: string) => [Text(ReplaceAll(x, pattern, replacement))]);
  }

  /**
   * A message in which a non-empty pattern does not occur passes unchanged,
   * and so does every message when a pattern free of `$` is replaced by
   * itself.
   */
  lemma SubstituteUnchanged(inputs: seq<string>, pattern: string, replacement: string)
    ensures |SubstituteItems(inputs, pattern, replacement)| == |inputs|
    ensures forall i :: 0 <= i < |inputs| && pattern != [] && !Occurs(inputs[i], pattern) ==>
              SubstituteItems(inputs, pattern, replacement)[i] == Text(inputs[i])
    ensures '$' !in pattern && replacement == pattern ==>
              forall i :: 0 <= i < |inputs| ==> SubstituteItems(inputs, pattern, replacement)[i] == Text(inputs[i])
  {
    SubstituteOnePerInput(inputs, pattern, replacement);
    if '$' !in pattern && replacement == pattern {
      forall i | 0 <= i < |inputs| ensures ReplaceAll(inputs[i], pattern, replacement) == inputs[i] {
        ReplaceBySelf(inputs[i], pattern);
      }
    }
  }

  /** Substitute's stage: its texts, then one close; it never waits. */
  lemma SubstituteStage(inputs: seq<string>, pattern: string, replacement: string)
    ensures Payloads(SubstituteItems(inputs, pattern, replacement) + [Close]) == SubstituteItems(inputs, pattern, replacement)
    ensures Pauses(SubstituteItems(inputs, pattern, replacement) + [Close]) == 0
    ensures ClosedOnceAtEnd(SubstituteItems(inputs, pattern, replacement) + [Close])
  {
    SubstituteOnePerInput(inputs, pattern, replacement);
    PayloadStage(SubstituteItems(inputs, pattern, replacement));
  }

  /** The functional test's case: `{REPLACE_ME}` replaced by `Good Text`. */
  lemma SubstituteExample(prefix: string, pattern: string, replacement: string, input: string)
    requires prefix == "This text should be " && pattern == "{REPLACE_ME}" && replacement == "Good Text"
    requires input == prefix + pattern
    ensures ReplaceAll(input, pattern, replacement) == "This text should be Good Text"
  {
    FirstCharAbsent(prefix, pattern + "", pattern);
    ReplaceFirst(prefix, pattern, "", replacement);
    assert prefix + pattern + "" == input;
    assert prefix + replacement + "" == prefix + replacement;
  }

  // ----- Envsub -----

  /** `process.env` as its keys are listed by `Object.keys`: each with its value, `""` when empty. */
  type Env = seq<(string, string)>

  /** The placeholder Envsub looks for: a dollar sign and the key in braces. */
  function Placeholder(key: string): (p: string)
    ensures |p| == |key| + 3 && p[0] == '$' && p[1] == '{' && p[|p| - 1] == '}'
    ensures p[2..|p| - 1] == key
  {
    "${" + key + "}"
  }

  /**
   * One message after Envsub's `forEach` over the keys in order: each key
   * with a non-empty value has its placeholder replaced by that value in the
   * text the earlier keys left; keys with an empty value are skipped. A
   * message without a dollar sign passes through unchanged, whatever the
   * environment.
   */
  function EnvFold(env: Env, x: string): (r: string)
    ensures '$' !in x ==> r == x
    decreases |env|
  {
    if env == [] then x
    else
      var y := EnvFold(env[..|env| - 1], x);
      var (key, value) := env[|env| - 1];
      DollarFree(y, key);
      if value != "" then ReplaceAll(y, Placeholder(key), value) else y
  }

  /** The `forEach` over the environment's keys, rewriting one message. */
  method SubstituteEnv(env: Env, x: string) returns (r: string)
    ensures r == EnvFold(env, x)
  {
    r := x;
    for i := 0 to |env|
      invariant r == EnvFold(env[..i], x)
    {
      assert env[..i + 1][..i] == env[..i];
      var (key, value) := env[i];
      if value != "" {
        r := ReplaceAll(r, Placeholder(key), value);
      }
    }
    assert env[..|env|] == env;
  }

  /** The texts Envsub.transform writes, one per message. */
  function EnvsubItems(env: Env, inputs: seq<string>): seq<Event>
  {
    FlatMap(inputs, (x: string) => [Text(EnvFold(env, x))])
  }

  /** Envsub.transform: each message rewritten against the environment, then `close()`. */
  method Envsub(w: Writer, env: Env, inputs: seq<string>)
    modifies w
    ensures w.events == old(w.events) + EnvsubItems(env, inputs) + [Close]
  {
    for i := 0 to |inputs|
      invariant w.events == old(w.events) + EnvsubItems(env, inputs[..i])
    {
      FlatMapSnoc(inputs, i, (x: string) => [Text(EnvFold(env, x))]);
      var x := SubstituteEnv(env, inputs[i]);
      w.String(x);
    }
    assert inputs[..|inputs|] == inputs;
    w.Close();
  }

  /** Envsub writes exactly one text per message, in order: the message rewritten against the environment. */
  lemma EnvsubOnePerInput(env: Env, inputs: seq<string>)
    ensures |EnvsubItems(env, inputs)| == |inputs|
    ensures forall i :: 0 <= i < |inputs| ==> EnvsubItems(env, inputs)[i] == Text(EnvFold(env, inputs[i]))
  {
    FlatMapOne(inputs, (x: string) => [Text(EnvFold(env, x))]);
  }

  /** Envsub's stage: its texts, then one close; it never waits. */
  lemma EnvsubStage(env: Env, inputs: seq<string>)
    ensures Payloads(EnvsubItems(env, inputs) + [Close]) == EnvsubItems(env, inputs)
    ensures Pauses(EnvsubItems(env, inputs) + [Close]) == 0
    ensures ClosedOnceAtEnd(EnvsubItems(env, inputs) + [Close])
  {
    EnvsubOnePerInput(env, inputs);
    PayloadStage(EnvsubItems(env, inputs));
  }

  /** The keys are applied in order: a longer environment continues from where a shorter one stopped. */
  lemma {:induction false} EnvFoldAppend(a: Env, b: Env, x: string)
    ensures EnvFold(a + b, x) == EnvFold(b, EnvFold(a, x))
    decreases |b|
  {
    if b == [] {
      assert a + b == a;
    } else {
      var n := |b| - 1;
      EnvFoldAppend(a, b[..n], x);
      assert (a + b)[..|a + b| - 1] == a + b[..n];
      assert (a + b)[|a + b| - 1] == b[n];
    }
  }

  /**
   * A message is left as it is when, for every key with a non-empty value,
   * its placeholder does not occur in it. (A placeholder of an unset or empty
   * variable next to set ones is the subject of EnvFoldKeepsUnset.)
   */
  lemma {:induction false} EnvFoldUntouched(env: Env, x: string)
    requires forall i :: 0 <= i < |env| && env[i].1 != "" ==> !Occurs(x, Placeholder(env[i].0))
    ensures EnvFold(env, x) == x
    decreases |env|
  {
    if env != [] {
      var n := |env| - 1;
      assert forall i :: 0 <= i < n ==> env[..n][i] == env[i];
      EnvFoldUntouched(env[..n], x);
      EnvFoldLast(env, x);
      assert env[n].1 != "" ==> !Occurs(x, Placeholder(env[n].0));
    }
  }

  /** No placeholder occurs in a text without a dollar sign. */
  lemma DollarFree(x: string, key: string)
    ensures '$' !in x ==> !Occurs(x, Placeholder(key))
  {
    var p := Placeholder(key);
    forall q: nat | q <= |x| && '$' !in x ensures !MatchAt(x, p, q) {
      if q + |p| <= |x| {
        assert x[q..q + |p|][0] == x[q];
        assert x[q] in x;
      }
    }
  }

  /**
   * Inside the braces of a placeholder there is no dollar sign and no
   * closing brace when the key has none.
   */
  lemma PlaceholderInside(key: string)
    requires '$' !in key && '}' !in key
    ensures forall j :: 0 < j < |Placeholder(key)| ==> Placeholder(key)[j] != '$'
    ensures forall j :: 0 <= j < |Placeholder(key)| - 1 ==> Placeholder(key)[j] != '}'
  {
    var p := Placeholder(key);
    forall j | 2 <= j < |p| - 1 ensures p[j] != '$' && p[j] != '}' {
      assert p[j] == p[2..|p| - 1][j - 2];
      assert key[j - 2] in key;
    }
  }

  /**
   * The placeholder of one key never overlaps the placeholder of another
   * key, when neither key has a dollar sign or a closing brace.
   */
  lemma PlaceholderApart(a: string, u: string, b: string, k: string)
    requires '$' !in u && '}' !in u && '$' !in k && '}' !in k && k != u
    ensures forall q: nat :: q < |a| + |Placeholder(u)| && |a| < q + |Placeholder(k)| ==>
              !MatchAt(a + Placeholder(u) + b, Placeholder(k), q)
  {
    var pu, pk := Placeholder(u), Placeholder(k);
    var w := a + pu + b;
    PlaceholderInside(u);
    PlaceholderInside(k);
    forall q: nat | q < |a| + |pu| && |a| < q + |pk| ensures !MatchAt(w, pk, q) {
      if q + |pk| <= |w| {
        if q < |a| {
          // the match would have to put one of its inner characters on the dollar sign of `${u}`
          assert w[q..q + |pk|][|a| - q] == w[|a|] == pu[0];
        } else if q > |a| {
          // its own dollar sign would sit inside `${u}`
          assert w[q..q + |pk|][0] == w[q] == pu[q - |a|];
        } else if |pk| < |pu| {
          // its closing brace would sit inside `${u}`
          assert w[q..q + |pk|][|pk| - 1] == pu[|pk| - 1];
        } else if |pk| > |pu| {
          // the closing brace of `${u}` would sit inside it
          assert w[q..q + |pk|][|pu| - 1] == pu[|pu| - 1];
        } else {
          assert w[q..q + |pk|] == pu;
          assert pu[2..|pu| - 1] != pk[2..|pk| - 1];
        }
      }
    }
  }

  /**
   * Replacing the placeholder of key `k` leaves the placeholder of another
   * key `u` in place and rewrites the text on either side of it on its own.
   */
  lemma PlaceholderKept(a: string, u: string, b: string, k: string, v: string)
    requires '$' !in u && '}' !in u && '$' !in k && '}' !in k && k != u && '$' !in v
    ensures ReplaceAll(a + Placeholder(u) + b, Placeholder(k), v) ==
            ReplaceAll(a, Placeholder(k), v) + Placeholder(u) + ReplaceAll(b, Placeholder(k), v)
  {
    PlaceholderApart(a, u, b, k);
    ReplaceAround(a, Placeholder(u), b, Placeholder(k), v);
  }

  /** One step of the fold: the last key of the environment applied to what the others left. */
  lemma EnvFoldLast(env: Env, x: string)
    requires env != []
    ensures var (key, value) := env[|env| - 1];
            EnvFold(env, x) == if value != "" then ReplaceAll(EnvFold(env[..|env| - 1], x), Placeholder(key), value)
                               else EnvFold(env[..|env| - 1], x)
  {
  }

  /**
   * The placeholder of a variable that is unset or empty survives Envsub,
   * and the text on either side of it is rewritten as if on its own, when no
   * set key has a dollar sign or a closing brace, no set value has a dollar
   * sign, and the variable's own name has neither.
   */
  lemma {:induction false} EnvFoldKeepsUnset(env: Env, a: string, u: string, b: string)
    requires '$' !in u && '}' !in u
    requires forall i :: 0 <= i < |env| && env[i].1 != "" ==>
               env[i].0 != u && '$' !in env[i].0 && '}' !in env[i].0 && '$' !in env[i].1
    ensures EnvFold(env, a + Placeholder(u) + b) == EnvFold(env, a) + Placeholder(u) + EnvFold(env, b)
    decreases |env|
  {
    if env != [] {
      var n := |env| - 1;
      var pre := env[..n];
      assert forall i :: 0 <= i < n ==> pre[i] == env[i];
      EnvFoldKeepsUnset(pre, a, u, b);
      var (k, v) := env[n];
      EnvFoldLast(env, a + Placeholder(u) + b);
      EnvFoldLast(env, a);
      EnvFoldLast(env, b);
      if v != "" {
        PlaceholderKept(EnvFold(pre, a), u, EnvFold(pre, b), k, v);
      }
    }
  }

  /**
   * The functional test's case: `REPLACE_ME` set to `Good Text`, wherever it
   * sits among the other variables, provided none listed before it has a
   * non-empty value and a placeholder in the message.
   */
  lemma EnvsubExample(pre: Env, post: Env, prefix: string, key: string, value: string, input: string)
    requires prefix == "This text should be " && key == "REPLACE_ME" && value == "Good Text"
    requires input == prefix + Placeholder(key)
    requires forall i :: 0 <= i < |pre| && pre[i].1 != "" ==> !Occurs(input, Placeholder(pre[i].0))
    ensures EnvFold(pre + [(key, value)] + post, input) == prefix + value  // "This text should be Good Text"
  {
    var entry: Env := [(key, value)];
    EnvFoldAppend(pre + entry, post, input);
    EnvFoldAppend(pre, entry, input);
    EnvFoldUntouched(pre, input);
    EnvFoldOne(prefix, key, value);
    var out := prefix + value;
    assert '$' !in out by {
      assert forall c | c in out :: c in prefix || c in value;
    }
    calc {
      EnvFold(pre + entry + post, input);
      EnvFold(post, EnvFold(entry, EnvFold(pre, input)));
      EnvFold(post, out);
      out;
    }
  }

  /** A single set variable whose placeholder ends a `$`-free message. */
  lemma EnvFoldOne(prefix: string, key: string, value: string)
    requires '$' !in prefix && '$' !in value && value != ""
    ensures EnvFold([(key, value)], prefix + Placeholder(key)) == prefix + value
  {
    var entry: Env := [(key, value)];
    assert entry[..0] == [];
    FirstCharAbsent(prefix, Placeholder(key) + "", Placeholder(key));
    ReplaceFirst(prefix, Placeholder(key), "", value);
    assert prefix + Placeholder(key) + "" == prefix + Placeholder(key);
  }
}
