/**
 * The module state of src/index.js (`varsQueue`, `globalVarsList`,
 * `globalPageNumber`) as one object, with its operations written as the
 * source writes them: loops over the store, over the queue and over the
 * calls in a definition, updating the fields in place. Each method is proved
 * equal to the functions of store.dfy, resolve.dfy and queue.dfy.
 */
module Engine {
  import opened Options
  import opened Text
  import opened Store
  import opened Scanner
  import opened Replace
  import opened Links
  import opened Resolve
  import opened Queue

  /** One pass of `processVariableQueue`: whether it was the final pass, and `resolvedOne` after it. */
  datatype PassInfo = PassInfo(final: bool, progress: bool)

  /** A pass over the items from `k` is the step on item `k`, then a pass over the items after it. */
  lemma PassAt(env: Env, pages: Pages, page: int, q: seq<Token>, k: nat, finalLoop: bool)
    requires k < |q|
    ensures var s := StepSpec(env, pages, page, q[k], finalLoop);
      var rest := PassSpec(env, s.pages, page, q[k + 1..], finalLoop);
      PassSpec(env, pages, page, q[k..], finalLoop) == ([s.token] + rest.0, rest.1, s.progress || rest.2)
  {
    assert q[k..][0] == q[k] && q[k..][1..] == q[k + 1..];
  }

  /** A pass part-way through: the items already handled, then what the pass does with the rest. */
  function Partial(done: seq<Token>, rest: (seq<Token>, Pages, bool), progress: bool): (seq<Token>, Pages, bool) {
    (done + rest.0, rest.1, progress || rest.2)
  }

  /** Handling item `k` moves one item from the rest of the pass to the items handled. */
  lemma PassStep(env: Env, pages: Pages, page: int, q0: seq<Token>, k: nat, finalLoop: bool,
                 before: seq<Token>, whole: (seq<Token>, Pages, bool), progress: bool)
    requires k < |q0| && |before| == |q0| && before[k..] == q0[k..]
    requires whole == Partial(before[..k], PassSpec(env, pages, page, q0[k..], finalLoop), progress)
    ensures before[k] == q0[k]
    ensures var s := StepSpec(env, pages, page, q0[k], finalLoop);
      var after := before[k := s.token];
      && |after| == |q0| && after[k + 1..] == q0[k + 1..]
      && whole == Partial(after[..k + 1], PassSpec(env, s.pages, page, q0[k + 1..], finalLoop), progress || s.progress)
  {
    assert before[k..][0] == before[k];
    PassAt(env, pages, page, q0, k, finalLoop);
    var s := StepSpec(env, pages, page, q0[k], finalLoop);
    var after := before[k := s.token];
    var rest := PassSpec(env, s.pages, page, q0[k + 1..], finalLoop);
    assert after[..k + 1] == before[..k] + [s.token];
    assert after[k + 1..] == before[k + 1..];
    assert before[k + 1..] == before[k..][1..];
    assert before[..k] + ([s.token] + rest.0) == after[..k + 1] + rest.0;
  }

  /** At the start nothing is handled; at the end the rest of the pass is empty. */
  lemma PassEnds(env: Env, pages: Pages, page: int, q0: seq<Token>, finalLoop: bool, after: seq<Token>, progress: bool)
    ensures Partial(after[..0], PassSpec(env, pages, page, q0, finalLoop), false) == PassSpec(env, pages, page, q0, finalLoop)
    ensures Partial(after, PassSpec(env, pages, page, [], finalLoop), progress) == (after, pages, progress)
  {
    assert after[..0] + PassSpec(env, pages, page, q0, finalLoop).0 == PassSpec(env, pages, page, q0, finalLoop).0;
    assert after + [] == after;
  }

  /** Every pass but the last is not final, and the pass after one is final exactly when that one made no progress. */
  predicate Chained(log: seq<PassInfo>) {
    forall k :: 0 <= k < |log| - 1 ==> !log[k].final && log[k + 1].final == !log[k].progress
  }

  /** The log while the loop runs: no pass so far was final, and the next is final exactly after a pass without progress. */
  predicate OpenLog(log: seq<PassInfo>, finalLoop: bool) {
    Chained(log) &&
    (log == [] ==> !finalLoop) &&
    (log != [] ==> !log[|log| - 1].final && log[|log| - 1].progress == !finalLoop)
  }

  /**
   * The log of a finished loop: passes are chained, a final pass is never the
   * first, and unless all `fuel` passes ran, the last pass was the final one.
   */
  predicate ClosedLog(log: seq<PassInfo>, fuel: nat) {
    |log| <= fuel && Chained(log) &&
    (log != [] && log[|log| - 1].final ==> |log| >= 2) &&
    (|log| < fuel ==> log != [] && log[|log| - 1].final)
  }

  lemma ChainedExtend(log: seq<PassInfo>, info: PassInfo)
    requires Chained(log)
    requires log != [] ==> !log[|log| - 1].final && info.final == !log[|log| - 1].progress
    ensures Chained(log + [info])
  {
    var l := log + [info];
    forall k | 0 <= k < |l| - 1
      ensures !l[k].final && l[k + 1].final == !l[k].progress
    {
      if k < |log| - 1 {
        assert l[k] == log[k] && l[k + 1] == log[k + 1];
      }
    }
  }

  /** A pass that is not final keeps the log open; the next pass is final exactly when this one made no progress. */
  lemma OpenLogExtend(log: seq<PassInfo>, progress: bool)
    requires OpenLog(log, false)
    ensures OpenLog(log + [PassInfo(false, progress)], !progress)
  {
    ChainedExtend(log, PassInfo(false, progress));
  }

  /** The final pass closes the log. */
  lemma CloseAfterFinal(log: seq<PassInfo>, progress: bool, fuel: nat)
    requires OpenLog(log, true) && |log| < fuel
    ensures ClosedLog(log + [PassInfo(true, progress)], fuel)
  {
    ChainedExtend(log, PassInfo(true, progress));
  }

  /** Running out of passes closes the log too. */
  lemma CloseAtFuel(log: seq<PassInfo>, finalLoop: bool, fuel: nat)
    requires OpenLog(log, finalLoop) && |log| == fuel
    ensures ClosedLog(log, fuel)
  {
  }

  /**
   * The passes the loop runs with `fuel` passes left: each pass is logged with
   * whether it was final and whether it made progress, and the loop goes on
   * as ProcessSpec does. The log has the shape LogFrom describes.
   */
  function PassLog(env: Env, pages: Pages, page: int, q: seq<Token>, fuel: nat, finalLoop: bool): (r: seq<PassInfo>)
    ensures LogFrom(r, fuel, finalLoop)
    decreases fuel
  {
    if fuel == 0 then []
    else
      var pass := PassSpec(env, pages, page, q, finalLoop);
      var info := PassInfo(finalLoop, pass.2);
      if finalLoop then [info]
      else
        var rest := PassLog(env, pass.1, page, WithoutKind(pass.0, ResolvedKind), fuel - 1, !pass.2);
        LogFromCons(info, rest, fuel);
        [info] + rest
  }

  /**
   * The rest of the loop as it runs, with the passes already logged in
   * front: the queue and the store it ends with, and the whole log.
   */
  function LoopFrom(log: seq<PassInfo>, env: Env, pages: Pages, page: int, q: seq<Token>, fuel: nat, finalLoop: bool)
    : (seq<Token>, Pages, seq<PassInfo>)
    decreases fuel
  {
    if fuel == 0 then (WithoutKind(q, DefKind), pages, log)
    else
      var pass := PassSpec(env, pages, page, q, finalLoop);
      var q2 := WithoutKind(pass.0, ResolvedKind);
      var next := log + [PassInfo(finalLoop, pass.2)];
      if finalLoop then (WithoutKind(q2, DefKind), pass.1, next)
      else LoopFrom(next, env, pass.1, page, q2, fuel - 1, !pass.2)
  }

  /** LoopFrom is ProcessSpec with PassLog appended to the passes already run. */
  lemma {:induction false} LoopFromIs(log: seq<PassInfo>, env: Env, pages: Pages, page: int, q: seq<Token>, fuel: nat, finalLoop: bool)
    ensures LoopFrom(log, env, pages, page, q, fuel, finalLoop).0 == ProcessSpec(env, pages, page, q, fuel, finalLoop).0
    ensures LoopFrom(log, env, pages, page, q, fuel, finalLoop).1 == ProcessSpec(env, pages, page, q, fuel, finalLoop).1
    ensures LoopFrom(log, env, pages, page, q, fuel, finalLoop).2 == log + PassLog(env, pages, page, q, fuel, finalLoop)
    decreases fuel
  {
    if fuel == 0 {
      assert log + [] == log;
      return;
    }
    var pass := PassSpec(env, pages, page, q, finalLoop);
    PassLogNext(env, pages, page, q, fuel, finalLoop, pass);
    var info := PassInfo(finalLoop, pass.2);
    if finalLoop {
      ProcessLast(env, pages, page, q, fuel, pass);
      LoopFromLast(log, env, pages, page, q, fuel, pass);
      assert [info] + [] == [info];
      return;
    }
    var q2 := WithoutKind(pass.0, ResolvedKind);
    ProcessNext(env, pages, page, q, fuel, pass);
    LoopFromNext(log, env, pages, page, q, fuel, pass);
    LoopFromIs(log + [info], env, pass.1, page, q2, fuel - 1, !pass.2);
    Regroup3(log, [info], PassLog(env, pass.1, page, q2, fuel - 1, !pass.2));
  }

  /** With fuel left, the final pass ends LoopFrom. */
  lemma LoopFromLast(log: seq<PassInfo>, env: Env, pages: Pages, page: int, q: seq<Token>, fuel: nat, pass: (seq<Token>, Pages, bool))
    requires fuel > 0 && pass == PassSpec(env, pages, page, q, true)
    ensures LoopFrom(log, env, pages, page, q, fuel, true) ==
      (WithoutKind(WithoutKind(pass.0, ResolvedKind), DefKind), pass.1, log + [PassInfo(true, pass.2)])
  {
  }

  /** With fuel left, a pass that is not final hands LoopFrom on to the next one. */
  lemma LoopFromNext(log: seq<PassInfo>, env: Env, pages: Pages, page: int, q: seq<Token>, fuel: nat, pass: (seq<Token>, Pages, bool))
    requires fuel > 0 && pass == PassSpec(env, pages, page, q, false)
    ensures LoopFrom(log, env, pages, page, q, fuel, false) ==
      LoopFrom(log + [PassInfo(false, pass.2)], env, pass.1, page, WithoutKind(pass.0, ResolvedKind), fuel - 1, !pass.2)
  {
  }

  /** With fuel left, the log starts with the pass about to run. */
  lemma PassLogNext(env: Env, pages: Pages, page: int, q: seq<Token>, fuel: nat, finalLoop: bool, pass: (seq<Token>, Pages, bool))
    requires fuel > 0 && pass == PassSpec(env, pages, page, q, finalLoop)
    ensures PassLog(env, pages, page, q, fuel, finalLoop) == [PassInfo(finalLoop, pass.2)] +
      (if finalLoop then [] else PassLog(env, pass.1, page, WithoutKind(pass.0, ResolvedKind), fuel - 1, !pass.2))
  {
  }

  /**
   * The shape of the rest of a log with `fuel` passes left: nothing when no
   * pass is left; otherwise a first pass that is final exactly when
   * `finalLoop` is set, and after a pass that is not final, the rest of the
   * log, whose first pass is final exactly when this one made no progress.
   */
  predicate LogFrom(log: seq<PassInfo>, fuel: nat, finalLoop: bool)
    decreases fuel
  {
    if fuel == 0 then log == []
    else
      log != [] && log[0].final == finalLoop &&
      if finalLoop then |log| == 1 else LogFrom(log[1..], fuel - 1, !log[0].progress)
  }

  /** A pass that is not final, followed by a rest of the shape LogFrom describes. */
  lemma LogFromCons(info: PassInfo, rest: seq<PassInfo>, fuel: nat)
    requires fuel > 0 && !info.final && LogFrom(rest, fuel - 1, !info.progress)
    ensures LogFrom([info] + rest, fuel, false)
  {
    assert ([info] + rest)[1..] == rest;
  }

  /** An open log followed by a rest of the shape LogFrom describes is closed. */
  lemma {:induction false} LogFromCloses(log: seq<PassInfo>, rest: seq<PassInfo>, left: nat, finalLoop: bool, total: nat)
    requires OpenLog(log, finalLoop) && LogFrom(rest, left, finalLoop) && total == |log| + left
    ensures ClosedLog(log + rest, total)
    decreases left
  {
    if left == 0 {
      assert log + rest == log;
      CloseAtFuel(log, finalLoop, total);
    } else if finalLoop {
      assert rest == [PassInfo(true, rest[0].progress)];
      CloseAfterFinal(log, rest[0].progress, total);
    } else {
      var info := rest[0];
      assert info == PassInfo(false, info.progress);
      OpenLogExtend(log, info.progress);
      LogFromCloses(log + [info], rest[1..], left - 1, !info.progress, total);
      assert (log + [info]) + rest[1..] == log + rest;
    }
  }

  /**
   * The log of the whole loop is closed: a pass without progress is followed
   * by exactly one final pass, after which the loop stops, and it stops
   * earlier only when the fuel runs out.
   */
  lemma PassLogClosed(env: Env, pages: Pages, page: int, q: seq<Token>, fuel: nat)
    ensures ClosedLog(PassLog(env, pages, page, q, fuel, false), fuel)
  {
    var passes := PassLog(env, pages, page, q, fuel, false);
    assert [] + passes == passes;
    LogFromCloses([], passes, fuel, false, fuel);
  }

  /** What the whole loop ends with, read off LoopFrom started with an empty log. */
  lemma LoopDone(env: Env, pages: Pages, page: int, q: seq<Token>, fuel: nat, goal: (seq<Token>, Pages, seq<PassInfo>))
    requires goal == LoopFrom([], env, pages, page, q, fuel, false)
    ensures (goal.0, goal.1) == ProcessSpec(env, pages, page, q, fuel, false)
    ensures goal.2 == PassLog(env, pages, page, q, fuel, false)
    ensures ClosedLog(goal.2, fuel)
  {
    LoopFromIs([], env, pages, page, q, fuel, false);
    assert [] + PassLog(env, pages, page, q, fuel, false) == PassLog(env, pages, page, q, fuel, false);
    PassLogClosed(env, pages, page, q, fuel);
  }

  class Context {
    /** `varsQueue` */
    var queue: seq<Token>
    /** `globalVarsList` */
    var pages: Pages
    /** `globalPageNumber` */
    var pageNumber: int
    /** The math evaluator and the number test. */
    const env: Env

    constructor(env: Env)
      ensures queue == [] && pages == map[] && pageNumber == 0 && this.env == env
    {
      queue := [];
      pages := map[];
      pageNumber := 0;
      this.env := env;
    }

    /** `lookupVar(name, index)`: the backward walk, then the hoisting walk from the page count. */
    method Lookup(name: string, index: int) returns (r: Option<Entry>)
      ensures r == LookupSpec(pages, name, index)
    {
      var i := index;
      while i >= 0
        invariant WalkDown(pages, name, i) == WalkDown(pages, name, index)
        decreases i
      {
        if i in pages && name in pages[i] {
          return Some(pages[i][name]);
        }
        i := i - 1;
      }
      i := |pages.Keys|;
      while i >= 0
        invariant WalkDown(pages, name, i) == LookupSpec(pages, name, index)
        decreases i
      {
        if i in pages && name in pages[i] {
          return Some(pages[i][name]);
        }
        i := i - 1;
      }
      return None;
    }

    /** The value a math variable contributes: a resolved, non-empty, numeric record. */
    method NumericLookup(variable: string) returns (r: Option<string>)
      ensures r == NumericValue(env, pages, pageNumber, variable)
    {
      var found := Lookup(variable, pageNumber);
      if found.Some? && found.value.resolved && found.value.content != [] && IsNumeric(env, found.value.content) {
        return Some(found.value.content);
      }
      return None;
    }

    /** `mathVars.forEach(...)`: each variable in turn replaced at word boundaries in `label`. */
    method SubstituteVars(mathVars: seq<string>, name: string) returns (replaced: string)
      requires forall v :: v in mathVars ==> v != []
      ensures replaced == Substitute(env, pages, pageNumber, mathVars, name)
    {
      replaced := name;
      var k := 0;
      while k < |mathVars|
        invariant k <= |mathVars|
        invariant forall v :: v in mathVars[k..] ==> v in mathVars
        invariant Substitute(env, pages, pageNumber, mathVars[k..], replaced) == Substitute(env, pages, pageNumber, mathVars, name)
      {
        var variable := mathVars[k];
        assert variable in mathVars;
        var value := NumericLookup(variable);
        if value.Some? {
          replaced := ReplaceWord(replaced, variable, value.value);
        }
        assert mathVars[k..][0] == variable && mathVars[k..][1..] == mathVars[k + 1..];
        k := k + 1;
      }
    }

    /** `replaceVar(prefix, label, allowUnresolved)` from the current page. */
    method ReplaceVar(prefix: string, name: string, allowUnresolved: bool) returns (r: Option<string>)
      ensures r == ReplaceVarSpec(env, pages, pageNumber, prefix, name, allowUnresolved)
    {
      var mathVars := MathVars(env, name);
      if |prefix| > 0 && prefix[0] == '$' && (mathVars == [] || mathVars[0] != Trim(name)) {
        var replaced := SubstituteVars(mathVars, name);
        return env.evaluate(replaced);
      }
      var found := Lookup(name, pageNumber);
      if found.None? || (!found.value.resolved && !allowUnresolved) {
        return None;
      }
      if |prefix| > 0 && prefix[0] == '$' {
        return Some(found.value.content);
      }
      var link := LinkMatch(found.value.content);
      if link.None? {
        return None;
      }
      r := FormatLink(prefix, name, link.value);
    }

    /** The `varCallRegex` loop over a definition's content. */
    method ResolveDefinition(content: string) returns (temp: string, resolved: bool)
      ensures (temp, resolved) == ResolveDefSpec(env, pages, pageNumber, content)
    {
      temp := content;
      resolved := true;
      var c := 0;
      var m := NextCall(content, 0);
      while m.Some?
        invariant c <= |content|
        invariant m == NextCall(content, c)
        invariant ResolveFrom(env, pages, pageNumber, content, c, temp, resolved) == ResolveDefSpec(env, pages, pageNumber, content)
        decreases |content| - c
      {
        var i := m.value;
        var l := LabelAt(content, i).value;
        var value := ReplaceVar(l.prefix, l.raw, false);
        if value.None? {
          resolved := false;
        } else {
          temp := ReplaceAll(temp, content[i..l.end], value.value);
        }
        c := l.end;
        m := NextCall(content, c);
      }
    }

    /** The body of the `for` loop for item `k`. */
    method ProcessItem(k: nat, finalLoop: bool) returns (progress: bool)
      requires k < |queue|
      modifies this
      ensures var s := StepSpec(env, old(pages), pageNumber, old(queue)[k], finalLoop);
        queue == old(queue)[k := s.token] && pages == s.pages && progress == s.progress
      ensures pageNumber == old(pageNumber)
    {
      var item := queue[k];
      if item.kind == DefKind {
        item, progress := StepDefinition(item, finalLoop);
      } else if item.kind == CallKind {
        item, progress := StepCall(item, finalLoop);
      } else {
        progress := false;
      }
      queue := queue[k := item];
    }

    /** A definition: resolve its content and record it on the page, resolved or not. */
    method StepDefinition(item: Token, finalLoop: bool) returns (next: Token, progress: bool)
      requires item.kind == DefKind
      modifies this
      ensures var s := StepSpec(env, old(pages), pageNumber, item, finalLoop);
        next == s.token && pages == s.pages && progress == s.progress
      ensures queue == old(queue) && pageNumber == old(pageNumber)
    {
      next := item;
      progress := false;
      var temp, resolved := ResolveDefinition(item.content);
      if resolved || item.content != temp {
        progress := true;
        next := next.(content := temp);
      }
      pages := pages[pageNumber := PageOf(pages, pageNumber)[next.name := Entry(next.content, resolved, false)]];
      if resolved {
        next := next.(kind := ResolvedKind);
      }
    }

    /** A call: replaced by its value as text when it has one. */
    method StepCall(item: Token, finalLoop: bool) returns (next: Token, progress: bool)
      requires item.kind == CallKind
      ensures var s := StepSpec(env, pages, pageNumber, item, finalLoop);
        next == s.token && s.pages == pages && progress == s.progress
    {
      next := item;
      progress := false;
      var value := ReplaceVar(item.prefix, item.name, finalLoop);
      if value.Some? {
        progress := true;
        next := Token(TextKind, item.prefix, item.name, value.value);
      }
    }

    /** One pass: every item in order, then the resolved definitions are removed. */
    method RunPass(finalLoop: bool) returns (resolvedOne: bool)
      modifies this
      ensures pageNumber == old(pageNumber)
      ensures var pass := PassSpec(env, old(pages), pageNumber, old(queue), finalLoop);
        queue == WithoutKind(pass.0, ResolvedKind) && pages == pass.1 && resolvedOne == pass.2
    {
      ghost var q0 := queue;
      ghost var whole := PassSpec(env, pages, pageNumber, queue, finalLoop);
      resolvedOne := false;
      var k := 0;
      PassEnds(env, pages, pageNumber, q0, finalLoop, queue, false);
      assert q0[0..] == q0;
      while k < |queue|
        invariant pageNumber == old(pageNumber)
        invariant |queue| == |q0| && k <= |queue|
        invariant queue[k..] == q0[k..]
        invariant whole == Partial(queue[..k], PassSpec(env, pages, pageNumber, q0[k..], finalLoop), resolvedOne)
      {
        PassStep(env, pages, pageNumber, q0, k, finalLoop, queue, whole, resolvedOne);
        var progress := ProcessItem(k, finalLoop);
        resolvedOne := resolvedOne || progress;
        k := k + 1;
      }
      assert queue[..k] == queue && q0[k..] == [];
      PassEnds(env, pages, pageNumber, q0, finalLoop, queue, resolvedOne);
      assert whole == (queue, pages, resolvedOne);
      queue := WithoutKind(queue, ResolvedKind);
    }

    /** One turn of the `while` loop with `fuel` passes left: the pass, then where the loop goes from there. */
    method Advance(finalLoop: bool, ghost fuel: nat, ghost log: seq<PassInfo>, ghost goal: (seq<Token>, Pages, seq<PassInfo>))
      returns (resolvedOne: bool)
      requires fuel > 0
      requires LoopFrom(log, env, pages, pageNumber, queue, fuel, finalLoop) == goal
      modifies this
      ensures pageNumber == old(pageNumber)
      ensures resolvedOne == PassSpec(env, old(pages), pageNumber, old(queue), finalLoop).2
      ensures finalLoop ==> (WithoutKind(queue, DefKind), pages, log + [PassInfo(true, resolvedOne)]) == goal
      ensures !finalLoop ==>
        LoopFrom(log + [PassInfo(false, resolvedOne)], env, pages, pageNumber, queue, fuel - 1, !resolvedOne) == goal
    {
      resolvedOne := RunPass(finalLoop);
    }

    /**
     * `processVariableQueue`, allowed at most `fuel` passes. The log records
     * each pass: a pass without progress is followed by the final pass, the
     * final pass is the last, and the loop stops only after it unless the
     * fuel runs out. The source's loop condition `resolvedOne || finalLoop`
     * holds at every test, so the loop ends only at its `break`.
     */
    method ProcessVariableQueue(fuel: nat) returns (log: seq<PassInfo>)
      modifies this
      ensures (queue, pages) == ProcessSpec(env, old(pages), pageNumber, old(queue), fuel, false)
      ensures pageNumber == old(pageNumber)
      ensures log == PassLog(env, old(pages), pageNumber, old(queue), fuel, false)
      ensures ClosedLog(log, fuel)
    {
      ghost var goal := LoopFrom([], env, pages, pageNumber, queue, fuel, false);
      LoopDone(env, pages, pageNumber, queue, fuel, goal);
      var finalLoop := false;
      log := [];
      ghost var left: nat := fuel;
      while true
        invariant pageNumber == old(pageNumber)
        invariant |log| <= fuel && left == fuel - |log|
        invariant LoopFrom(log, env, pages, pageNumber, queue, left, finalLoop) == goal
        decreases left
      {
        if |log| == fuel {
          queue := WithoutKind(queue, DefKind);
          assert (queue, pages, log) == goal;
          break;
        }
        var resolvedOne := Advance(finalLoop, left, log, goal);
        log := log + [PassInfo(finalLoop, resolvedOne)];
        if finalLoop {
          queue := WithoutKind(queue, DefKind);
          break;
        }
        left := left - 1;
        finalLoop := !resolvedOne;
      }
    }

    /** `globalVarsList[globalPageNumber]` keeps only its external records, each no longer external. */
    method ResetCurrentPage()
      modifies this
      ensures pages == ResetPage(old(pages), pageNumber)
      ensures queue == old(queue) && pageNumber == old(pageNumber)
    {
      var existing := PageOf(pages, pageNumber);
      pages := pages[pageNumber := map n | n in existing && existing[n].external :: existing[n].(external := false)];
    }

    /**
     * The `preprocess` hook: reset the current page, tokenize, run the queue
     * and join what is left.
     */
    method Preprocess(src: string, fuel: nat) returns (out: string)
      modifies this
      ensures (queue, pages) == ProcessSpec(env, ResetPage(old(pages), pageNumber), pageNumber, Tokens(src), fuel, false)
      ensures out == Join(queue)
      ensures pageNumber == old(pageNumber)
    {
      ResetCurrentPage();
      queue := [];
      var tokens := Tokenize(src);
      queue := tokens;
      var _ := ProcessVariableQueue(fuel);
      out := Join(queue);
    }

    /** `setMarkedVariable(name, content, page)` */
    method SetMarkedVariable(name: string, content: string, page: int)
      modifies this
      ensures pages == SetExternal(old(pages), name, content, page)
      ensures queue == old(queue) && pageNumber == old(pageNumber)
    {
      if page < 0 {
        return;
      }
      if page !in pages {
        pages := pages[page := map[]];
      }
      pages := pages[page := pages[page][name := Entry(content, true, true)]];
    }

    /** `getMarkedVariable(name, page)`: the content of a resolved record, or nothing. */
    method GetMarkedVariable(name: string, page: int) returns (r: Option<string>)
      ensures r.Some? <==> LookupSpec(pages, name, page).Some? && LookupSpec(pages, name, page).value.resolved
      ensures r.Some? ==> r.value == LookupSpec(pages, name, page).value.content
    {
      var lookup := Lookup(name, page);
      if lookup.Some? && lookup.value.resolved {
        return Some(lookup.value.content);
      }
      return None;
    }

    /** `setMarkedVariablePage(pageNumber)` */
    method SetMarkedVariablePage(n: int)
      modifies this
      ensures pageNumber == n
      ensures queue == old(queue) && pages == old(pages)
    {
      pageNumber := n;
    }
  }
}
