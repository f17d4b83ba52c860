/** The configuration resolver `cbconf_init` of src/core/cbconf.c.

    The C loop pulls words from a `cbsplit_t` cursor; a directive that takes
    an argument pulls one more. Since iterating the cursor yields exactly the
    whitespace-separated words of the buffer (CbSplit.SplitVisitsWords), the
    resolver is stated over that word list, with the index of the next word
    in place of the cursor. Every `exit(1)` becomes a `ConfError`. */
module CbConf {
  import opened Wrappers
  import opened CbStr
  import CbSplit

  datatype ConfError =
    | UnexpectedEnd           // a directive's argument is missing at end of input
    | DuplicateSource
    | DuplicateProject
    | UnknownCacheMode
    | MissingSourceOrProject  // the scan ended without both

  /** `cbconf_t`. */
  datatype Config = Config(source: Str, project: Str, rule: Str,
                           defines: seq<Str>, flags: seq<Str>, cache: bool)
  {
    /** Every string of the configuration is terminated. */
    predicate Valid() {
      WellFormed(source) && WellFormed(project) && WellFormed(rule)
      && AllWellFormed(defines) && AllWellFormed(flags)
    }
  }

  /** The locals of `cbconf_init` while it scans. `warnings` collects the
      unknown directives it reports and steps over. */
  datatype State = State(rule: Str, ignore: bool, source: Option<Str>, project: Option<Str>,
                         cache: bool, defines: seq<Str>, flags: seq<Str>,
                         warnings: seq<seq<char>>)
  {
    /** Every string is terminated, and a rule body is only ever skipped
        once a rule other than `"default"` is selected. */
    predicate Valid() {
      && WellFormed(rule) && (ignore ==> !IsDefault(rule))
      && (source.Some? ==> WellFormed(source.value))
      && (project.Some? ==> WellFormed(project.value))
      && AllWellFormed(defines) && AllWellFormed(flags)
    }
  }

  /** A position in the scan: the state and the index of the next word. */
  datatype Pos = Pos(st: State, next: nat)

  /** Every word is non-empty and free of whitespace, as the cursor yields them. */
  predicate Words(toks: seq<seq<char>>) {
    forall k :: 0 <= k < |toks| ==> CbSplit.IsWord(toks[k])
  }

  /** `strncmp(keyword, token, token_len) == 0`: how a word selects a directive. */
  predicate Selects(keyword: seq<char>, tok: seq<char>)
    ensures |tok| == 0 ==> Selects(keyword, tok)
    ensures Selects(keyword, tok) && |tok| >= 1 && |keyword| >= 1 ==> tok[0] == keyword[0]
  {
    StrnEq(keyword, tok, |tok|)
  }

  /** `strncmp(rule.data, "default", rule.len) == 0`. */
  predicate IsDefault(rule: Str) {
    StrnEq(rule.data, "default", rule.len)
  }

  /** The rule selected before the scan: the first command-line argument cut
      to 64 characters by `strnlen`, else `"default"`. `arg` holds the
      argument's characters without its terminator. */
  function InitialRule(arg: Option<seq<char>>): (r: Str)
    requires arg.Some? ==> |arg.value| >= 1 && NUL !in arg.value
    ensures WellFormed(r) && Tight(r)
    ensures arg.None? ==> Text(r) == "default"
    ensures arg.Some? ==> Text(r) == arg.value[..if |arg.value| < 64 then |arg.value| else 64]
  {
    match arg
    case None =>
      assert Lit("default")[7] == NUL;
      assert Lit("default")[..7] == "default";
      FromCStr(Lit("default"), 8)
    case Some(a) =>
      var n := if |a| < 64 then |a| else 64;
      assert a[n - 1] in a;
      FromCStr(a, n)
  }

  function Initial(arg: Option<seq<char>>): (st: State)
    requires arg.Some? ==> |arg.value| >= 1 && NUL !in arg.value
    ensures st.Valid() && !st.ignore && st.source.None? && st.project.None?
    ensures !st.cache && st.defines == [] && st.flags == [] && st.warnings == []
  {
    State(InitialRule(arg), false, None, None, false, [], [], [])
  }

  /** A `rule <name>` line: the first rule seen while the selection is still
      `"default"` is adopted and its body kept; otherwise the selection stays
      and the body is skipped unless `strncmp(selected, name, len(name))`
      reports a match. */
  function RuleLine(st: State, name: seq<char>): (r: State)
    requires st.Valid() && |name| >= 1
    ensures r.Valid()
    ensures IsDefault(st.rule) ==> !r.ignore && Text(r.rule) == CText(name, |name|)
    ensures !IsDefault(st.rule) ==> r.rule == st.rule && (r.ignore <==> !StrnEq(st.rule.data, name, |name|))
    ensures r.source == st.source && r.project == st.project && r.cache == st.cache
    ensures r.defines == st.defines && r.flags == st.flags && r.warnings == st.warnings
  {
    if IsDefault(st.rule) then
      st.(rule := ConcatCStr(Clear(st.rule), name, |name|), ignore := false)
    else
      st.(ignore := !StrnEq(st.rule.data, name, |name|))
  }

  /** The argument of the directive at `i`, or the end-of-input error. */
  function Argument(toks: seq<seq<char>>, i: nat): (r: Result<seq<char>, ConfError>)
    requires Words(toks) && i < |toks|
    ensures r.Success? <==> i + 1 < |toks|
    ensures r.Success? ==> r.value == toks[i + 1] && |r.value| >= 1
    ensures r.Failure? ==> r.error == UnexpectedEnd
  {
    if i + 1 < |toks| then Success(toks[i + 1]) else Failure(UnexpectedEnd)
  }

  /** A word selects a directive exactly when it is a non-empty prefix of
      the keyword (for words without an embedded NUL). This is
      `CbStr.StrnEqPrefix`, where the induction over `strncmp` is done,
      read at a directive keyword. */
  lemma SelectsPrefix(keyword: seq<char>, tok: seq<char>)
    requires NUL !in keyword && NUL !in tok && |tok| >= 1
    ensures Selects(keyword, tok) <==> |tok| <= |keyword| && tok == keyword[..|tok|]
  {
    StrnEqPrefix(keyword, tok);
  }

  /** A selecting word starts with the keyword's first letter. */
  lemma SelectsFirst(keyword: seq<char>, tok: seq<char>)
    requires |keyword| >= 1 && |tok| >= 1 && Selects(keyword, tok)
    ensures tok[0] == keyword[0]
  {
  }

  /** The seven directive keywords start with seven different letters, so a
      word selects at most one of them. */
  lemma KeywordsDisjoint(t: seq<char>)
    requires |t| >= 1
    ensures Selects("rule", t) ==> !Selects("endrule", t) && !Selects("source", t) && !Selects("project", t)
    ensures Selects("rule", t) ==> !Selects("cache", t) && !Selects("define", t) && !Selects("flag", t)
    ensures Selects("endrule", t) ==> !Selects("source", t) && !Selects("project", t) && !Selects("cache", t)
    ensures Selects("endrule", t) ==> !Selects("define", t) && !Selects("flag", t)
    ensures Selects("source", t) ==> !Selects("project", t) && !Selects("cache", t) && !Selects("define", t)
    ensures Selects("source", t) ==> !Selects("flag", t)
    ensures Selects("project", t) ==> !Selects("cache", t) && !Selects("define", t) && !Selects("flag", t)
    ensures Selects("cache", t) ==> !Selects("define", t) && !Selects("flag", t)
    ensures Selects("define", t) ==> !Selects("flag", t)
  {
    var kws := ["rule", "endrule", "source", "project", "cache", "define", "flag"];
    forall k | 0 <= k < |kws| && Selects(kws[k], t) ensures t[0] == kws[k][0] {
      SelectsFirst(kws[k], t);
    }
  }

  /** One pass of the C `while` loop: the directive at `i`, with its
      argument if it takes one, in the order the source tests the keywords. */
  function Step(toks: seq<seq<char>>, i: nat, st: State): (r: Result<Pos, ConfError>)
    requires Words(toks) && i < |toks| && st.Valid()
    ensures r.Success? ==> r.value.st.Valid() && i < r.value.next <= |toks|
    ensures r.Failure? ==> r.error != MissingSourceOrProject
    ensures r.Success? ==> st.defines <= r.value.st.defines && st.flags <= r.value.st.flags
    ensures r.Success? && st.source.Some? ==> r.value.st.source == st.source
    ensures r.Success? && st.project.Some? ==> r.value.st.project == st.project
    ensures r.Success? && !IsDefault(st.rule) ==> r.value.st.rule == st.rule
    // `rule <name>` and `endrule` are acted on whether or not the body is skipped.
    ensures Selects("rule", toks[i]) ==>
              (r.Success? <==> i + 1 < |toks|) &&
              (r.Success? ==> r.value == Pos(RuleLine(st, toks[i + 1]), i + 2)) &&
              (r.Failure? ==> r.error == UnexpectedEnd)
    ensures Selects("endrule", toks[i]) ==> r == Success(Pos(st.(ignore := false), i + 1))
    // While skipping, every other word is dropped.
    ensures st.ignore && !Selects("rule", toks[i]) && !Selects("endrule", toks[i]) ==>
              r == Success(Pos(st, i + 1))
    // Otherwise the word is acted on.
    ensures !st.ignore && !Selects("rule", toks[i]) && !Selects("endrule", toks[i]) ==>
              r == Act(toks, i, st)
    // A missing argument is the only other way to fail.
    ensures r.Failure? && r.error == UnexpectedEnd ==> i + 1 == |toks|
  {
    var t := toks[i];
    KeywordsDisjoint(t);
    if Selects("rule", t) then
      var name :- Argument(toks, i);
      Success(Pos(RuleLine(st, name), i + 2))
    else if Selects("endrule", t) then
      Success(Pos(st.(ignore := false), i + 1))
    else if st.ignore then
      Success(Pos(st, i + 1))
    else
      Act(toks, i, st)
  }

  /** A directive other than `rule` and `endrule`, outside a skipped body. */
  function Act(toks: seq<seq<char>>, i: nat, st: State): (r: Result<Pos, ConfError>)
    requires Words(toks) && i < |toks| && st.Valid() && !st.ignore
    requires !Selects("rule", toks[i]) && !Selects("endrule", toks[i])
    ensures r.Success? ==> r.value.st.Valid() && i < r.value.next <= |toks|
    ensures r.Failure? ==> r.error != MissingSourceOrProject
    ensures r.Success? ==> st.defines <= r.value.st.defines && st.flags <= r.value.st.flags
    ensures r.Success? ==> r.value.st.rule == st.rule
    ensures r.Success? && st.source.Some? ==> r.value.st.source == st.source
    ensures r.Success? && st.project.Some? ==> r.value.st.project == st.project
    // `source` and `project` are set at most once.
    ensures Selects("source", toks[i]) ==>
              if st.source.Some? then r == Failure(DuplicateSource)
              else (r.Success? <==> i + 1 < |toks|) &&
                   (r.Success? ==> r.value.st == st.(source := Some(FromCStr(toks[i + 1], |toks[i + 1]|))))
    ensures Selects("project", toks[i]) ==>
              if st.project.Some? then r == Failure(DuplicateProject)
              else (r.Success? <==> i + 1 < |toks|) &&
                   (r.Success? ==> r.value.st == st.(project := Some(FromCStr(toks[i + 1], |toks[i + 1]|))))
    // `cache on` / `cache off`, anything else is fatal.
    ensures Selects("cache", toks[i]) && i + 1 == |toks| ==> r == Failure(UnexpectedEnd)
    ensures Selects("cache", toks[i]) && i + 1 < |toks| ==>
              (r.Success? <==> Selects("on", toks[i + 1]) || Selects("off", toks[i + 1])) &&
              (r.Success? ==> r.value.st == st.(cache := Selects("on", toks[i + 1]))) &&
              (r.Failure? ==> r.error == UnknownCacheMode)
    // `define` and `flag` append their argument.
    ensures Selects("define", toks[i]) ==>
              (r.Success? <==> i + 1 < |toks|) &&
              (r.Success? ==> r.value.st == st.(defines := st.defines + [FromCStr(toks[i + 1], |toks[i + 1]|)]))
    ensures Selects("flag", toks[i]) ==>
              (r.Success? <==> i + 1 < |toks|) &&
              (r.Success? ==> r.value.st == st.(flags := st.flags + [FromCStr(toks[i + 1], |toks[i + 1]|)]))
    ensures r.Failure? && r.error == UnexpectedEnd ==> i + 1 == |toks|
    // A directive that takes an argument fails when the file ends after it.
    ensures i + 1 == |toks| && (Selects("define", toks[i]) || Selects("flag", toks[i]) ||
                                (Selects("source", toks[i]) && st.source.None?) ||
                                (Selects("project", toks[i]) && st.project.None?)) ==>
              r == Failure(UnexpectedEnd)
    // Any other word is reported and stepped over.
    ensures !Selects("source", toks[i]) && !Selects("project", toks[i]) && !Selects("cache", toks[i]) &&
            !Selects("define", toks[i]) && !Selects("flag", toks[i]) ==>
              r == Success(Pos(st.(warnings := st.warnings + [toks[i]]), i + 1))
  {
    var t := toks[i];
    KeywordsDisjoint(t);
    if Selects("source", t) then
      if st.source.Some? then Failure(DuplicateSource)
      else
        var a :- Argument(toks, i);
        Success(Pos(st.(source := Some(FromCStr(a, |a|))), i + 2))
    else if Selects("project", t) then
      if st.project.Some? then Failure(DuplicateProject)
      else
        var a :- Argument(toks, i);
        Success(Pos(st.(project := Some(FromCStr(a, |a|))), i + 2))
    else if Selects("cache", t) then
      var a :- Argument(toks, i);
      if Selects("on", a) then Success(Pos(st.(cache := true), i + 2))
      else if Selects("off", a) then Success(Pos(st.(cache := false), i + 2))
      else Failure(UnknownCacheMode)
    else if Selects("define", t) then
      var a :- Argument(toks, i);
      Success(Pos(st.(defines := ListPush(st.defines, FromCStr(a, |a|))), i + 2))
    else if Selects("flag", t) then
      var a :- Argument(toks, i);
      Success(Pos(st.(flags := ListPush(st.flags, FromCStr(a, |a|))), i + 2))
    else
      Success(Pos(st.(warnings := st.warnings + [t]), i + 1))
  }

  /** The `while (cbsplit_next(&view))` loop from word `i` on. */
  function Run(toks: seq<seq<char>>, i: nat, st: State): (r: Result<State, ConfError>)
    requires Words(toks) && i <= |toks| && st.Valid()
    ensures r.Success? ==> r.value.Valid()
    ensures r.Failure? ==> r.error != MissingSourceOrProject
    ensures r.Success? ==> st.defines <= r.value.defines && st.flags <= r.value.flags
    ensures r.Success? && st.source.Some? ==> r.value.source == st.source
    ensures r.Success? && st.project.Some? ==> r.value.project == st.project
    ensures r.Success? && !IsDefault(st.rule) ==> r.value.rule == st.rule
    decreases |toks| - i
  {
    if i == |toks| then Success(st)
    else
      var p :- Step(toks, i, st);
      Run(toks, p.next, p.st)
  }

  /** `cbconf_init` over the words of the configuration buffer: scan, then
      insist on both `source` and `project`. */
  function Resolve(buf: seq<char>, arg: Option<seq<char>>): (r: Result<Config, ConfError>)
    requires arg.Some? ==> |arg.value| >= 1 && NUL !in arg.value
    ensures r.Failure? && r.error == MissingSourceOrProject <==>
              Scan(buf, arg).Success? && (Scan(buf, arg).value.source.None? || Scan(buf, arg).value.project.None?)
    ensures r.Success? <==> Scan(buf, arg).Success? && Scan(buf, arg).value.source.Some? && Scan(buf, arg).value.project.Some?
    ensures r.Success? ==> r.value.Valid() && r.value.rule == Scan(buf, arg).value.rule
    ensures r.Success? ==> r.value.defines == Scan(buf, arg).value.defines && r.value.flags == Scan(buf, arg).value.flags
  {
    var st :- Scan(buf, arg);
    if st.source.None? || st.project.None? then Failure(MissingSourceOrProject)
    else Success(Config(st.source.value, st.project.value, st.rule, st.defines, st.flags, st.cache))
  }

  /** The scan alone, from the initial state over every word of `buf`. */
  function Scan(buf: seq<char>, arg: Option<seq<char>>): (r: Result<State, ConfError>)
    requires arg.Some? ==> |arg.value| >= 1 && NUL !in arg.value
    ensures r.Success? ==> r.value.Valid()
    ensures r.Failure? ==> r.error != MissingSourceOrProject
  {
    var toks := CbSplit.Words(buf);
    assert Words(toks);
    Run(toks, 0, Initial(arg))
  }

  // ---------------------------------------------------------------------
  // What the comparisons mean for terminated, NUL-free text.
  // ---------------------------------------------------------------------

  /** `strncmp` never looks past the first NUL of its first argument, so two
      buffers that agree up to and including that NUL compare alike. */
  lemma {:induction false} StrnEqUpToNul(a: seq<char>, a': seq<char>, b: seq<char>, n: nat, k: nat)
    requires forall i :: 0 <= i <= k ==> At(a, i) == At(a', i)
    requires At(a, k) == NUL
    ensures StrnEq(a, b, n) == StrnEq(a', b, n)
    decreases n
  {
    if n > 0 && k > 0 && At(a, 0) != NUL {
      forall i | 0 <= i <= k - 1 ensures At(Drop1(a), i) == At(Drop1(a'), i) {
        AtDrop1(a, i);
        AtDrop1(a', i);
      }
      AtDrop1(a, k - 1);
      StrnEqUpToNul(Drop1(a), Drop1(a'), Drop1(b), n - 1, k - 1);
    }
  }

  /** Comparing one byte past the end of `x` tests equality. */
  lemma {:induction false} StrnEqWhole(x: seq<char>, y: seq<char>)
    requires NUL !in x && NUL !in y
    ensures StrnEq(x, y, |x| + 1) <==> x == y
    decreases |x|
  {
    if |x| == 0 {
      if y != [] { assert y[0] in y; }
    } else if y == [] {
      assert x[0] in x;
    } else {
      assert x[0] in x;
      assert NUL !in x[1..] && NUL !in y[1..] by {
        assert forall c :: c in x[1..] ==> c in x;
        assert forall c :: c in y[1..] ==> c in y;
      }
      StrnEqWhole(x[1..], y[1..]);
      assert x == [x[0]] + x[1..] && y == [y[0]] + y[1..];
    }
  }

  /** A terminated string compares like its text. */
  lemma DataLikeText(s: Str, b: seq<char>, n: nat)
    requires WellFormed(s) && s.len >= 1
    ensures StrnEq(s.data, b, n) == StrnEq(Text(s), b, n)
  {
    StrnEqUpToNul(s.data, Text(s), b, n, s.len - 1);
  }

  /** The selected rule counts as `"default"` exactly when its text is. */
  lemma IsDefaultText(s: Str)
    requires WellFormed(s) && s.len >= 1 && NUL !in Text(s)
    ensures IsDefault(s) <==> Text(s) == "default"
  {
    DataLikeText(s, "default", s.len);
    StrnEqWhole(Text(s), "default");
  }

  /** Once a rule other than `"default"` is selected, `rule <name>` keeps its
      body exactly when `name` is a non-empty prefix of the selected rule
      (`strncmp` compares only `len(name)` bytes). */
  lemma RuleBodyKept(st: State, name: seq<char>)
    requires st.Valid() && st.rule.len >= 1 && NUL !in Text(st.rule) && Text(st.rule) != "default"
    requires |name| >= 1 && NUL !in name
    ensures RuleLine(st, name).rule == st.rule
    ensures !RuleLine(st, name).ignore <==> |name| <= |Text(st.rule)| && name == Text(st.rule)[..|name|]
  {
    IsDefaultText(st.rule);
    DataLikeText(st.rule, name, |name|);
    StrnEqPrefix(Text(st.rule), name);
  }

  /** While the selection is `"default"`, `rule <name>` adopts `name` and
      keeps its body. */
  lemma RuleAdopted(st: State, name: seq<char>)
    requires st.Valid() && st.rule.len >= 1 && Text(st.rule) == "default"
    requires |name| >= 1 && NUL !in name
    ensures !RuleLine(st, name).ignore && Text(RuleLine(st, name).rule) == name
  {
    assert NUL !in Text(st.rule);
    IsDefaultText(st.rule);
    assert name[|name| - 1] in name;
    assert CText(name, |name|) == name;
    var r := RuleLine(st, name);
    assert !r.ignore && Text(r.rule) == CText(name, |name|);
  }

  /** A rule given on the command line (other than `default` itself) is the
      rule of the resolved configuration, whatever rule blocks the file has. */
  lemma RequestedRuleKept(buf: seq<char>, a: seq<char>)
    requires |a| >= 1 && NUL !in a
    requires a[..if |a| < 64 then |a| else 64] != "default"
    ensures Resolve(buf, Some(a)).Success? ==> Resolve(buf, Some(a)).value.rule == InitialRule(Some(a))
  {
    var r := InitialRule(Some(a));
    assert NUL !in Text(r) by {
      assert forall c :: c in Text(r) ==> c in a;
    }
    IsDefaultText(r);
  }

  /** With no rule on the command line, the first `rule <name>` line of the
      file selects `name` for the rest of the scan (unless `name` is
      `default` itself). */
  lemma FirstRuleAdopted(toks: seq<seq<char>>, i: nat, st: State)
    requires Words(toks) && i + 1 < |toks| && st.Valid()
    requires st.rule.len >= 1 && Text(st.rule) == "default"
    requires Selects("rule", toks[i]) && NUL !in toks[i + 1] && toks[i + 1] != "default"
    ensures Run(toks, i, st).Success? ==> Text(Run(toks, i, st).value.rule) == toks[i + 1]
  {
    var name := toks[i + 1];
    var st' := RuleLine(st, name);
    RuleAdopted(st, name);
    assert |Text(st'.rule)| >= 1;
    IsDefaultText(st'.rule);
    assert Step(toks, i, st) == Success(Pos(st', i + 2));
    var rest := Run(toks, i + 2, st');
    assert rest.Success? ==> rest.value.rule == st'.rule;
    assert Run(toks, i, st) == rest;
  }

  /** While a rule body is skipped, nothing but `rule` and `endrule` lines
      affects the outcome. */
  lemma {:induction false} SkippedBody(toks: seq<seq<char>>, i: nat, j: nat, st: State)
    requires Words(toks) && i <= j <= |toks| && st.Valid() && st.ignore
    requires forall k :: i <= k < j ==> !Selects("rule", toks[k]) && !Selects("endrule", toks[k])
    ensures Run(toks, i, st) == Run(toks, j, st)
    decreases j - i
  {
    if i < j {
      RunSkip(toks, i, st);
      SkippedBody(toks, i + 1, j, st);
    }
  }

  lemma RunSkip(toks: seq<seq<char>>, i: nat, st: State)
    requires Words(toks) && i < |toks| && st.Valid() && st.ignore
    requires !Selects("rule", toks[i]) && !Selects("endrule", toks[i])
    ensures Run(toks, i, st) == Run(toks, i + 1, st)
  {
  }

  /** A skipped directive does not take its argument with it: the argument
      word is examined as a directive of its own, so an argument such as `e`
      (a prefix of `endrule`) ends the skipping. */
  lemma SkippedArgumentIsExamined(toks: seq<seq<char>>, i: nat, st: State)
    requires Words(toks) && i + 1 < |toks| && st.Valid() && st.ignore
    requires !Selects("rule", toks[i]) && !Selects("endrule", toks[i])
    requires Selects("endrule", toks[i + 1])
    ensures Run(toks, i, st) == Run(toks, i + 2, st.(ignore := false))
  {
    RunSkip(toks, i, st);
    assert Step(toks, i + 1, st) == Success(Pos(st.(ignore := false), i + 2));
  }
}
