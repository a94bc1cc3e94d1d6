/** The warm-up sequencer `WarmUp`: the StartSequence property is cleaned
    into a list of action tokens, each token may carry a `:guard`, and the
    known actions run in order through the mode arbiter. The guard evaluator
    is a parameter: it gives the truth of an expression, or `None` when the
    evaluation raises. */
module Sequencer {
  import opened Outcomes
  import opened Strings
  import opened Arbitration

  /** A one-element list is split at commas, but only when `','`
      is itself an element of the list, that is, when the element is ",". */
  function Rewrite(sequence: seq<string>): seq<string>
  {
    if |sequence| == 1 && !StartsWith(sequence[0], "#") && "," in sequence then Split(sequence[0], ',')
    else sequence
  }

  /** `l.split('#', 1)[0]`. */
  function BeforeHash(l: string): (r: string)
    ensures '#' !in r
    ensures '#' !in l ==> r == l
  {
    match IndexOf(l, '#')
    case None => l
    case Some(k) => l[..k]
  }

  function CleanToken(l: string): string
  {
    Strip(BeforeHash(l))
  }

  /** `filter(bool, (f(l) for l in lines))`. */
  function Filtered(lines: seq<string>, f: string -> string): seq<string>
  {
    if lines == [] then []
    else (if f(lines[0]) != "" then [f(lines[0])] else []) + Filtered(lines[1..], f)
  }

  /** `filter(bool, (l.split('#',1)[0].strip() for l in ...))`. */
  function Clean(lines: seq<string>): seq<string>
  {
    Filtered(lines, CleanToken)
  }

  /** The list a warm-up works on; it also becomes the new StartSequence. */
  function Prepare(sequence: seq<string>): seq<string>
  {
    Clean(Rewrite(sequence))
  }

  /** `s.split(':', 1) if ':' in s else (s, '')`. */
  function SplitGuard(s: string): (string, string)
  {
    match IndexOf(s, ':')
    case None => (s, "")
    case Some(k) => (s[..k], s[k + 1..])
  }

  /** The ten keys of the action table. */
  function ActionOf(name: string): Option<Command>
  {
    if name == "SERIAL" then Some(SetModeCmd("serial"))
    else if name == "LOCAL" then Some(SetModeCmd("local"))
    else if name == "PROTECT" then Some(SetModeCmd("protect"))
    else if name == "START" then Some(SetModeCmd("start"))
    else if name == "FIXED" then Some(SetModeCmd("fixed"))
    else if name == "STEP" then Some(SetModeCmd("step"))
    else if name == "ON1" then Some(OnHV1)
    else if name == "ON2" then Some(OnHV2)
    else if name == "OFF1" then Some(OffHV1)
    else if name == "OFF2" then Some(OffHV2)
    else None
  }

  /** An empty guard is true; one whose evaluation raises is false. */
  predicate GuardPasses(guard: string, eval: string -> Option<bool>)
  {
    guard == "" || eval(guard) == Some(true)
  }

  /** One token: run its action when the name is a key and the guard passes. */
  function TokenRun(a: Arbiter, env: Env, eval: string -> Option<bool>, token: string): Run
  {
    var (name, guard) := SplitGuard(token);
    match ActionOf(name)
    case Some(c) => if GuardPasses(guard, eval) then Apply(a, env, c) else Run(a, [], None)
    case None => Run(a, [], None)
  }

  /** The tokens in order, each through `step`; a step that raises ends the
      run with its exception, after what was already done. */
  function RunTokens(step: (Arbiter, string) -> Run, a: Arbiter, tokens: seq<string>): Run
  {
    if tokens == [] then Run(a, [], None)
    else
      var r := RunTokens(step, a, tokens[..|tokens| - 1]);
      if r.failure.Some? then r else Append(r, step(r.arb, tokens[|tokens| - 1]))
  }

  /** The warm-up loop over cleaned tokens. */
  function Execute(a: Arbiter, env: Env, eval: string -> Option<bool>, tokens: seq<string>): Run
  {
    RunTokens((b: Arbiter, t: string) => TokenRun(b, env, eval, t), a, tokens)
  }

  /** What `WarmUp` returns when no action raised. */
  function Listing(tokens: seq<string>): string
  {
    Join(tokens, "\n")
  }

  // ---------------------------------------------------------------------
  // Cleaning.

  predicate Tidy(t: string)
  {
    t != "" && '#' !in t && Strip(t) == t
  }

  lemma CleanTokenTidy(l: string)
    ensures CleanToken(l) != "" ==> Tidy(CleanToken(l))
  {
    StripIdempotent(BeforeHash(l));
  }

  /** What `f` promises of its non-empty results holds of every element kept. */
  lemma {:induction false} FilteredAll(lines: seq<string>, f: string -> string, p: string -> bool)
    requires forall l :: f(l) != "" ==> p(f(l))
    ensures forall k | 0 <= k < |Filtered(lines, f)| :: p(Filtered(lines, f)[k])
  {
    if lines != [] {
      FilteredAll(lines[1..], f, p);
      var head := if f(lines[0]) != "" then [f(lines[0])] else [];
      forall k | 0 <= k < |Filtered(lines, f)| ensures p(Filtered(lines, f)[k]) {
        if k >= |head| {
          assert Filtered(lines, f)[k] == Filtered(lines[1..], f)[k - |head|];
        }
      }
    }
  }

  /** Every cleaned token is non-empty, has no comment and no padding. */
  lemma CleanTokensAreTidy(lines: seq<string>)
    ensures forall k | 0 <= k < |Clean(lines)| :: Tidy(Clean(lines)[k])
  {
    forall l ensures CleanToken(l) != "" ==> Tidy(CleanToken(l)) {
      CleanTokenTidy(l);
    }
    FilteredAll(lines, CleanToken, Tidy);
  }

  lemma {:induction false} FilteredAppend(xs: seq<string>, ys: seq<string>, f: string -> string)
    ensures Filtered(xs + ys, f) == Filtered(xs, f) + Filtered(ys, f)
  {
    if xs == [] {
      assert xs + ys == ys;
    } else {
      assert (xs + ys)[0] == xs[0] && (xs + ys)[1..] == xs[1..] + ys;
      FilteredAppend(xs[1..], ys, f);
    }
  }

  /** Cleaning a list piecewise is cleaning it whole: order is kept. */
  lemma CleanAppend(xs: seq<string>, ys: seq<string>)
    ensures Clean(xs + ys) == Clean(xs) + Clean(ys)
  {
    FilteredAppend(xs, ys, CleanToken);
  }

  /** A second warm-up finds the StartSequence the first one stored already
      clean: cleaning is idempotent. */
  lemma {:induction false} CleanIdempotent(lines: seq<string>)
    ensures Clean(Clean(lines)) == Clean(lines)
  {
    if lines != [] {
      var t := CleanToken(lines[0]);
      var rest := Clean(lines[1..]);
      CleanIdempotent(lines[1..]);
      if t != "" {
        CleanTokenTidy(lines[0]);
        assert CleanToken(t) == t;
        var u := [t] + rest;
        assert Clean(lines) == u;
        assert u[0] == t && u[1..] == rest;
        assert Clean(u) == [CleanToken(u[0])] + Clean(u[1..]);
      } else {
        assert Clean(lines) == rest;
      }
    }
  }

  /** A comment line disappears and a trailing comment is cut off. */
  lemma CommentsAreDropped(name: string, comment: string)
    requires Tidy(name)
    ensures Clean(["#" + comment, name + " #" + comment]) == [name]
  {
    IndexOfAfter([], '#', comment);
    assert [] + ['#'] + comment == "#" + comment;
    assert BeforeHash("#" + comment) == "";
    IndexOfAfter(name + " ", '#', comment);
    assert name + " " + ['#'] + comment == name + " #" + comment;
    assert BeforeHash(name + " #" + comment) == name + " ";
    StrippedEnds(name);
    assert (name + " ")[..|name|] == name;
    assert TrimRight(name + " ") == TrimRight(name);
    assert CleanToken("#" + comment) == "";
    assert CleanToken(name + " #" + comment) == name;
    var lines := ["#" + comment, name + " #" + comment];
    var tail := [name + " #" + comment];
    assert lines[1..] == tail && tail[1..] == [];
    assert Clean(tail) == [name] + Clean([]);
    assert Clean(lines) == [] + Clean(tail);
  }

  /** The comma rewrite applies to the list [","] alone, which it turns
      into nothing; a comma-separated single entry is left whole and is one
      unknown token. */
  lemma RewriteOnlyForLoneComma(sequence: seq<string>)
    ensures Rewrite(sequence) != sequence ==> sequence == [","]
  {
  }

  lemma LoneCommaVanishes()
    ensures Prepare([","]) == []
  {
    assert ","[..1] == "," && ","[0] != '#';
    assert Rewrite([","]) == Split(",", ',');
    assert Split(",", ',') == ["", ""] by {
      assert IndexOf(",", ',') == Some(0);
      assert ","[1..] == "" && ","[..0] == "";
      assert IndexOf("", ',') == None;
    }
    assert CleanToken("") == "" by {
      assert BeforeHash("") == "";
    }
    assert ["", ""][1..] == [""] && [""][1..] == [];
  }

  lemma CommaListIsOneToken()
    ensures Rewrite(["SERIAL,STEP"]) == ["SERIAL,STEP"] && ActionOf("SERIAL,STEP") == None
  {
    assert "SERIAL,STEP" != ",";
  }

  // ---------------------------------------------------------------------
  // Guards and actions.

  /** The name and the guard put back together give the token, and the
      name holds no ':'. */
  lemma SplitGuardRestores(s: string)
    ensures var (name, guard) := SplitGuard(s);
      ':' !in name && (if ':' in s then name + ":" + guard == s else name == s && guard == "")
  {
    match IndexOf(s, ':')
    case None =>
    case Some(k) =>
      assert s[..k] + ":" + s[k + 1..] == s;
  }

  /** A token runs its action exactly when the name is a key and the guard is
      empty or evaluates to true; otherwise it does nothing. */
  lemma TokenRunSpec(a: Arbiter, env: Env, eval: string -> Option<bool>, token: string)
    ensures var (name, guard) := SplitGuard(token);
      TokenRun(a, env, eval, token)
      == if ActionOf(name).Some? && (guard == "" || eval(guard) == Some(true))
         then Apply(a, env, ActionOf(name).value) else Run(a, [], None)
  {
  }

  /** `name:guard` splits at the first ':' when the name has none. */
  lemma SplitGuardOf(name: string, guard: string)
    requires ':' !in name
    ensures SplitGuard(name + ":" + guard) == (name, guard)
  {
    IndexOfAfter(name, ':', guard);
    var s := name + ":" + guard;
    assert s[..|name|] == name && s[|name| + 1..] == guard;
  }

  /** `"ON1:1<2"` runs OnHV1 when the guard evaluates to true, and
      `"ON1:bad syntax"` is skipped when its evaluation raises. */
  lemma GuardExamples(a: Arbiter, env: Env, eval: string -> Option<bool>)
    requires eval("1<2") == Some(true) && eval("bad syntax") == None
    ensures TokenRun(a, env, eval, "ON1" + ":" + "1<2") == Apply(a, env, OnHV1)
    ensures TokenRun(a, env, eval, "ON1" + ":" + "bad syntax") == Run(a, [], None)
  {
    SplitGuardOf("ON1", "1<2");
    SplitGuardOf("ON1", "bad syntax");
  }

  /** Tokens run strictly in order: a sequence is its first part followed by
      the rest, started from where the first part left the arbiter, unless
      the first part raised. */
  lemma {:induction false} RunTokensAppend(step: (Arbiter, string) -> Run, a: Arbiter, ts: seq<string>, us: seq<string>)
    ensures var r := RunTokens(step, a, ts);
      RunTokens(step, a, ts + us)
      == if r.failure.Some? then r else Append(r, RunTokens(step, r.arb, us))
    decreases |us|
  {
    var r := RunTokens(step, a, ts);
    if us == [] {
      assert ts + us == ts;
    } else {
      var init := us[..|us| - 1];
      assert (ts + us)[..|ts + us| - 1] == ts + init;
      RunTokensAppend(step, a, ts, init);
      if r.failure.None? {
        var r2 := RunTokens(step, r.arb, init);
        if r2.failure.None? {
          var t := step(r2.arb, us[|us| - 1]);
          assert r.events + r2.events + t.events == r.events + (r2.events + t.events);
        }
      }
    }
  }

  lemma ExecuteAppend(a: Arbiter, env: Env, eval: string -> Option<bool>, ts: seq<string>, us: seq<string>)
    ensures var r := Execute(a, env, eval, ts);
      Execute(a, env, eval, ts + us)
      == if r.failure.Some? then r else Append(r, Execute(r.arb, env, eval, us))
  {
    RunTokensAppend((b: Arbiter, t: string) => TokenRun(b, env, eval, t), a, ts, us);
  }

  /** One more token: it runs from where the earlier ones left the arbiter,
      unless one of them raised. */
  lemma ExecuteSnoc(a: Arbiter, env: Env, eval: string -> Option<bool>, ts: seq<string>, t: string)
    ensures var r := Execute(a, env, eval, ts);
      Execute(a, env, eval, ts + [t])
      == if r.failure.Some? then r else Append(r, TokenRun(r.arb, env, eval, t))
  {
    assert (ts + [t])[..|ts + [t]| - 1] == ts;
  }

  /** An action that raises ends the warm-up: nothing after it runs. */
  lemma FailureEndsSequence(a: Arbiter, env: Env, eval: string -> Option<bool>, ts: seq<string>, us: seq<string>)
    requires Execute(a, env, eval, ts).failure.Some?
    ensures Execute(a, env, eval, ts + us) == Execute(a, env, eval, ts)
  {
    ExecuteAppend(a, env, eval, ts, us);
  }

  /** Unknown names do nothing, whatever their guard. */
  lemma {:induction false} UnknownTokensDoNothing(a: Arbiter, env: Env, eval: string -> Option<bool>, ts: seq<string>)
    requires forall k | 0 <= k < |ts| :: ActionOf(SplitGuard(ts[k]).0).None?
    ensures Execute(a, env, eval, ts) == Run(a, [], None)
  {
    if ts != [] {
      UnknownTokensDoNothing(a, env, eval, ts[..|ts| - 1]);
    }
  }

  /** A warm-up keeps the serial cooldown, like every command it runs. */
  lemma {:induction false} ExecuteDisciplined(a: Arbiter, env: Env, eval: string -> Option<bool>, ts: seq<string>)
    ensures Disciplined(a, env.now, Execute(a, env, eval, ts))
  {
    if ts != [] {
      var r := Execute(a, env, eval, ts[..|ts| - 1]);
      ExecuteDisciplined(a, env, eval, ts[..|ts| - 1]);
      if r.failure.None? {
        var t := TokenRun(r.arb, env, eval, ts[|ts| - 1]);
        var (name, guard) := SplitGuard(ts[|ts| - 1]);
        if ActionOf(name).Some? && GuardPasses(guard, eval) {
          CommandDisciplined(r.arb, env, ActionOf(name).value);
        }
        TrackAppend(a.last, env.now, r.events, t.events);
      }
    }
  }
}
