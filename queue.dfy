/**
 * `processVariableQueue` of src/index.js as functions of the queue and the
 * store: one step per queue item, one pass over the queue, and the loop of
 * passes that ends with a single best-effort pass. The `Context` class in
 * engine.dfy runs the same loop in place and is proved equal to these.
 */
module Queue {
  import opened Options
  import opened Text
  import opened Store
  import opened Scanner
  import opened Resolve

  /** `varsQueue.filter(item => item.type !== kind)` */
  function WithoutKind(q: seq<Token>, kind: Kind): seq<Token> {
    if q == [] then []
    else (if q[0].kind == kind then [] else [q[0]]) + WithoutKind(q[1..], kind)
  }

  /** `globalVarsList[page][name] = entry` */
  function Write(pages: Pages, page: int, name: string, e: Entry): (r: Pages)
    ensures r.Keys == pages.Keys + {page}
    ensures r[page] == PageOf(pages, page)[name := e]
    ensures forall p :: p in pages && p != page ==> r[p] == pages[p]
  {
    pages[page := PageOf(pages, page)[name := e]]
  }

  datatype Step = Step(token: Token, pages: Pages, progress: bool)

  /** The body of the `for` loop for one item. */
  function StepSpec(env: Env, pages: Pages, page: int, t: Token, finalLoop: bool): Step {
    match t.kind
    case DefKind =>
      var (temp, resolved) := ResolveDefSpec(env, pages, page, t.content);
      Step(Token(if resolved then ResolvedKind else DefKind, t.prefix, t.name, temp),
           Write(pages, page, t.name, Entry(temp, resolved, false)),
           resolved || temp != t.content)
    case CallKind =>
      (match ReplaceVarSpec(env, pages, page, t.prefix, t.name, finalLoop)
       case None => Step(t, pages, false)
       case Some(v) => Step(Token(TextKind, t.prefix, t.name, v), pages, true))
    case TextKind => Step(t, pages, false)
    case ResolvedKind => Step(t, pages, false)
  }

  /** The `for` loop over the queue: the items after it, the store after it, and `resolvedOne`. */
  function PassSpec(env: Env, pages: Pages, page: int, q: seq<Token>, finalLoop: bool): (seq<Token>, Pages, bool)
    decreases |q|
  {
    if q == [] then ([], pages, false)
    else
      var s := StepSpec(env, pages, page, q[0], finalLoop);
      var (rest, after, progress) := PassSpec(env, s.pages, page, q[1..], finalLoop);
      ([s.token] + rest, after, s.progress || progress)
  }

  /**
   * The `while` loop, allowed `fuel` more passes: a pass, the removal of
   * resolved definitions, then a stop after the final pass, or the next pass
   * (final if this one made no progress). At the end definitions are dropped.
   */
  function ProcessSpec(env: Env, pages: Pages, page: int, q: seq<Token>, fuel: nat, finalLoop: bool): (seq<Token>, Pages)
    decreases fuel
  {
    if fuel == 0 then (WithoutKind(q, DefKind), pages)
    else
      var (q1, p1, progress) := PassSpec(env, pages, page, q, finalLoop);
      var q2 := WithoutKind(q1, ResolvedKind);
      if finalLoop then (WithoutKind(q2, DefKind), p1)
      else ProcessSpec(env, p1, page, q2, fuel - 1, !progress)
  }

  /** With fuel left, a pass that is not the final one is followed by the rest of the loop. */
  lemma ProcessNext(env: Env, pages: Pages, page: int, q: seq<Token>, fuel: nat, pass: (seq<Token>, Pages, bool))
    requires fuel > 0 && pass == PassSpec(env, pages, page, q, false)
    ensures ProcessSpec(env, pages, page, q, fuel, false) ==
      ProcessSpec(env, pass.1, page, WithoutKind(pass.0, ResolvedKind), fuel - 1, !pass.2)
  {
  }

  /** With fuel left, the final pass ends the loop. */
  lemma ProcessLast(env: Env, pages: Pages, page: int, q: seq<Token>, fuel: nat, pass: (seq<Token>, Pages, bool))
    requires fuel > 0 && pass == PassSpec(env, pages, page, q, true)
    ensures ProcessSpec(env, pages, page, q, fuel, true) ==
      (WithoutKind(WithoutKind(pass.0, ResolvedKind), DefKind), pass.1)
  {
  }

  /**
   * How one item may change in a pass: text stays as it is, a call stays or
   * becomes text, a definition stays a definition or becomes resolved; the
   * prefix and name never change.
   */
  predicate Settles(t: Token, u: Token) {
    u.prefix == t.prefix && u.name == t.name &&
    match t.kind
    case TextKind => u == t
    case ResolvedKind => u == t
    case CallKind => u == t || u.kind == TextKind
    case DefKind => u.kind == DefKind || u.kind == ResolvedKind
  }
}

/** Properties of a pass and of the whole loop. */
module QueueFacts {
  import opened Options
  import opened Text
  import opened Store
  import opened Scanner
  import opened ScannerFacts
  import opened Resolve
  import opened Queue

  /** A pass maps the queue item by item, in order. */
  lemma {:induction false} PassPointwise(env: Env, pages: Pages, page: int, q: seq<Token>, finalLoop: bool)
    ensures var out := PassSpec(env, pages, page, q, finalLoop).0;
      |out| == |q| && forall k :: 0 <= k < |q| ==> Settles(q[k], out[k])
    decreases |q|
  {
    if q != [] {
      var s := StepSpec(env, pages, page, q[0], finalLoop);
      PassPointwise(env, s.pages, page, q[1..], finalLoop);
      var out := PassSpec(env, pages, page, q, finalLoop).0;
      var rest := PassSpec(env, s.pages, page, q[1..], finalLoop).0;
      assert out == [s.token] + rest;
      forall k | 0 <= k < |q|
        ensures Settles(q[k], out[k])
      {
        if k > 0 {
          assert q[k] == q[1..][k - 1] && out[k] == rest[k - 1];
        }
      }
    }
  }

  /** A pass writes only to the current page, and only the names of the definitions it meets. */
  lemma {:induction false} PassWritesDefinitions(env: Env, pages: Pages, page: int, q: seq<Token>, finalLoop: bool)
    ensures var after := PassSpec(env, pages, page, q, finalLoop).1;
      pages.Keys <= after.Keys <= pages.Keys + {page} &&
      (forall p :: p in pages && p != page ==> after[p] == pages[p]) &&
      forall n :: n in PageOf(after, page) ==>
        n in PageOf(pages, page) || exists t :: t in q && t.kind == DefKind && t.name == n
    decreases |q|
  {
    if q != [] {
      var s := StepSpec(env, pages, page, q[0], finalLoop);
      PassWritesDefinitions(env, s.pages, page, q[1..], finalLoop);
      var after := PassSpec(env, pages, page, q, finalLoop).1;
      assert after == PassSpec(env, s.pages, page, q[1..], finalLoop).1;
      forall n | n in PageOf(after, page)
        ensures n in PageOf(pages, page) || exists t :: t in q && t.kind == DefKind && t.name == n
      {
        if n !in PageOf(s.pages, page) {
          var t :| t in q[1..] && t.kind == DefKind && t.name == n;
          assert t in q;
        } else if n !in PageOf(pages, page) {
          assert q[0].kind == DefKind && q[0].name == n;
          assert q[0] in q;
        }
      }
    }
  }

  /** A pass over items that define no `n` leaves the record of `n` on the current page alone. */
  lemma {:induction false} PassKeepsName(env: Env, pages: Pages, page: int, q: seq<Token>, finalLoop: bool, n: string)
    requires forall t :: t in q && t.kind == DefKind ==> t.name != n
    ensures var after := PassSpec(env, pages, page, q, finalLoop).1;
      (n in PageOf(after, page) <==> n in PageOf(pages, page)) &&
      (n in PageOf(pages, page) ==> PageOf(after, page)[n] == PageOf(pages, page)[n])
    decreases |q|
  {
    if q != [] {
      assert q[0] in q;
      assert forall t :: t in q[1..] ==> t in q;
      var s := StepSpec(env, pages, page, q[0], finalLoop);
      StepKeepsName(env, pages, page, q[0], finalLoop, n);
      PassKeepsName(env, s.pages, page, q[1..], finalLoop, n);
      assert PassSpec(env, pages, page, q, finalLoop).1 == PassSpec(env, s.pages, page, q[1..], finalLoop).1;
    }
  }

  /** An item that does not define `n` leaves the record of `n` on the current page alone. */
  lemma StepKeepsName(env: Env, pages: Pages, page: int, t: Token, finalLoop: bool, n: string)
    requires t.kind == DefKind ==> t.name != n
    ensures var after := StepSpec(env, pages, page, t, finalLoop).pages;
      (n in PageOf(after, page) <==> n in PageOf(pages, page)) &&
      (n in PageOf(pages, page) ==> PageOf(after, page)[n] == PageOf(pages, page)[n])
  {
  }

  /**
   * The last definition of a name in a pass decides its record: the record
   * holds that definition's new content, and is resolved exactly when the
   * definition became resolved.
   */
  lemma {:induction false} LastDefinitionWins(env: Env, pages: Pages, page: int, q: seq<Token>, finalLoop: bool, k: nat)
    requires k < |q| && q[k].kind == DefKind
    requires forall j :: k < j < |q| && q[j].kind == DefKind ==> q[j].name != q[k].name
    ensures var (out, after, _) := PassSpec(env, pages, page, q, finalLoop);
      |out| == |q| && q[k].name in PageOf(after, page) &&
      PageOf(after, page)[q[k].name] == Entry(out[k].content, out[k].kind == ResolvedKind, false)
    decreases |q|
  {
    var s := StepSpec(env, pages, page, q[0], finalLoop);
    PassPointwise(env, s.pages, page, q[1..], finalLoop);
    var rest := PassSpec(env, s.pages, page, q[1..], finalLoop);
    var out := PassSpec(env, pages, page, q, finalLoop).0;
    assert out == [s.token] + rest.0;
    if k == 0 {
      forall t | t in q[1..] && t.kind == DefKind
        ensures t.name != q[0].name
      {
        var j :| 0 <= j < |q[1..]| && q[1..][j] == t;
        assert q[j + 1] == t;
      }
      PassKeepsName(env, s.pages, page, q[1..], finalLoop, q[0].name);
    } else {
      forall j | k - 1 < j < |q[1..]| && q[1..][j].kind == DefKind
        ensures q[1..][j].name != q[1..][k - 1].name
      {
        assert q[1..][j] == q[j + 1];
      }
      LastDefinitionWins(env, s.pages, page, q[1..], finalLoop, k - 1);
      assert out[k] == rest.0[k - 1];
    }
  }

  lemma {:induction false} PassOverText(env: Env, pages: Pages, page: int, q: seq<Token>, finalLoop: bool)
    requires forall t :: t in q ==> t.kind == TextKind
    ensures PassSpec(env, pages, page, q, finalLoop) == (q, pages, false)
    decreases |q|
  {
    if q != [] {
      assert forall t :: t in q[1..] ==> t in q;
      assert q[0] in q;
      PassOverText(env, pages, page, q[1..], finalLoop);
      assert q == [q[0]] + q[1..];
    }
  }

  lemma {:induction false} WithoutAbsentKind(q: seq<Token>, kind: Kind)
    requires forall t :: t in q ==> t.kind != kind
    ensures WithoutKind(q, kind) == q
    decreases |q|
  {
    if q != [] {
      assert q[0] in q;
      assert forall t :: t in q[1..] ==> t in q;
      WithoutAbsentKind(q[1..], kind);
      assert q == [q[0]] + q[1..];
    }
  }

  /** Filtering keeps exactly the items of the other kinds. */
  lemma {:induction false} WithoutKindMembers(q: seq<Token>, kind: Kind)
    ensures forall t :: t in WithoutKind(q, kind) <==> t in q && t.kind != kind
    decreases |q|
  {
    if q != [] {
      WithoutKindMembers(q[1..], kind);
      assert q == [q[0]] + q[1..];
    }
  }

  /** Filtering keeps the order: it filters the two halves of a queue separately. */
  lemma {:induction false} WithoutKindConcat(a: seq<Token>, b: seq<Token>, kind: Kind)
    ensures WithoutKind(a + b, kind) == WithoutKind(a, kind) + WithoutKind(b, kind)
    decreases |a|
  {
    if a == [] {
      assert a + b == b;
    } else {
      var h := if a[0].kind == kind then [] else [a[0]];
      assert (a + b)[0] == a[0] && (a + b)[1..] == a[1..] + b;
      assert WithoutKind(a + b, kind) == h + WithoutKind(a[1..] + b, kind);
      WithoutKindConcat(a[1..], b, kind);
      assert WithoutKind(a, kind) == h + WithoutKind(a[1..], kind);
      Regroup3(h, WithoutKind(a[1..], kind), WithoutKind(b, kind));
    }
  }

  /** A queue of text alone comes out as it went in, and the store is untouched. */
  lemma {:induction false} ProcessOverText(env: Env, pages: Pages, page: int, q: seq<Token>, fuel: nat, finalLoop: bool)
    requires forall t :: t in q ==> t.kind == TextKind
    ensures ProcessSpec(env, pages, page, q, fuel, finalLoop) == (q, pages)
    decreases fuel
  {
    WithoutAbsentKind(q, DefKind);
    WithoutAbsentKind(q, ResolvedKind);
    if fuel > 0 {
      PassOverText(env, pages, page, q, finalLoop);
      if !finalLoop {
        ProcessOverText(env, pages, page, q, fuel - 1, true);
      }
    }
  }

  /** After the loop no definition and no resolved definition is left in the queue. */
  lemma {:induction false} ProcessLeavesNoDefinitions(env: Env, pages: Pages, page: int, q: seq<Token>, fuel: nat, finalLoop: bool)
    requires forall t :: t in q ==> t.kind != ResolvedKind
    ensures forall t :: t in ProcessSpec(env, pages, page, q, fuel, finalLoop).0 ==> t.kind == TextKind || t.kind == CallKind
    decreases fuel
  {
    if fuel == 0 {
      WithoutKindMembers(q, DefKind);
    } else {
      var (q1, p1, progress) := PassSpec(env, pages, page, q, finalLoop);
      var q2 := WithoutKind(q1, ResolvedKind);
      WithoutKindMembers(q1, ResolvedKind);
      WithoutKindMembers(q2, DefKind);
      if !finalLoop {
        ProcessLeavesNoDefinitions(env, p1, page, q2, fuel - 1, !progress);
      }
    }
  }

  /** Two queues of the same length whose items correspond by Settles, position by position. */
  predicate SettlesAll(a: seq<Token>, b: seq<Token>) {
    |a| == |b| && forall k :: 0 <= k < |a| ==> Settles(a[k], b[k])
  }

  /**
   * After one pass, filtering out resolved definitions and then definitions
   * leaves the same items, in the same order, as filtering definitions out of
   * the queue before the pass.
   */
  lemma {:induction false} FiltersAfterPass(a: seq<Token>, b: seq<Token>)
    requires SettlesAll(a, b)
    requires forall t :: t in a ==> t.kind != ResolvedKind
    ensures SettlesAll(WithoutKind(a, DefKind), WithoutKind(WithoutKind(b, ResolvedKind), DefKind))
    decreases |a|
  {
    if a != [] {
      assert a[0] in a && Settles(a[0], b[0]);
      assert forall t :: t in a[1..] ==> t in a;
      forall k | 0 <= k < |a[1..]|
        ensures Settles(a[1..][k], b[1..][k])
      {
        assert a[1..][k] == a[k + 1] && b[1..][k] == b[k + 1];
      }
      FiltersAfterPass(a[1..], b[1..]);
      var ha := if a[0].kind == DefKind then [] else [a[0]];
      var hb := if b[0].kind == ResolvedKind then [] else [b[0]];
      assert WithoutKind(a, DefKind) == ha + WithoutKind(a[1..], DefKind);
      assert WithoutKind(b, ResolvedKind) == hb + WithoutKind(b[1..], ResolvedKind);
      WithoutKindConcat(hb, WithoutKind(b[1..], ResolvedKind), DefKind);
      var hc := WithoutKind(hb, DefKind);
      assert hc == if b[0].kind == ResolvedKind || b[0].kind == DefKind then [] else [b[0]];
      var x := WithoutKind(a[1..], DefKind);
      var y := WithoutKind(WithoutKind(b[1..], ResolvedKind), DefKind);
      assert |ha| == |hc|;
      forall k | 0 <= k < |ha + x|
        ensures Settles((ha + x)[k], (hc + y)[k])
      {
        if k >= |ha| {
          assert (ha + x)[k] == x[k - |ha|] && (hc + y)[k] == y[k - |ha|];
        }
      }
    }
  }

  /** Settles composes for queues of text and calls. */
  lemma SettlesAllThen(w: seq<Token>, v: seq<Token>, out: seq<Token>)
    requires forall t :: t in w ==> t.kind == TextKind || t.kind == CallKind
    requires SettlesAll(w, v) && SettlesAll(v, out)
    ensures SettlesAll(w, out)
  {
    forall k | 0 <= k < |w|
      ensures Settles(w[k], out[k])
    {
      assert w[k] in w;
    }
  }

  /**
   * The whole loop maps the text and the calls of the queue, in their order,
   * one for one to the queue it returns: text comes out unchanged, and a call
   * comes out unchanged or as text.
   */
  lemma {:induction false} ProcessSettles(env: Env, pages: Pages, page: int, q: seq<Token>, fuel: nat, finalLoop: bool)
    returns (out: seq<Token>)
    requires forall t :: t in q ==> t.kind != ResolvedKind
    ensures out == ProcessSpec(env, pages, page, q, fuel, finalLoop).0
    ensures SettlesAll(WithoutKind(q, DefKind), out)
    decreases fuel, 1
  {
    if fuel == 0 {
      out := WithoutKind(q, DefKind);
      assert SettlesAll(out, out);
      return;
    }
    var pass := PassSpec(env, pages, page, q, finalLoop);
    if finalLoop {
      OnePassSettles(env, pages, page, q, true, pass);
      ProcessLast(env, pages, page, q, fuel, pass);
      return WithoutKind(WithoutKind(pass.0, ResolvedKind), DefKind);
    }
    out := ProcessSettlesNext(env, pages, page, q, fuel, pass);
  }

  /** ProcessSettles after a pass that is not final: the pass, then the rest of the loop. */
  lemma {:induction false} ProcessSettlesNext(env: Env, pages: Pages, page: int, q: seq<Token>, fuel: nat, pass: (seq<Token>, Pages, bool))
    returns (out: seq<Token>)
    requires forall t :: t in q ==> t.kind != ResolvedKind
    requires fuel > 0 && pass == PassSpec(env, pages, page, q, false)
    ensures out == ProcessSpec(env, pages, page, q, fuel, false).0
    ensures SettlesAll(WithoutKind(q, DefKind), out)
    decreases fuel, 0
  {
    OnePassSettles(env, pages, page, q, false, pass);
    ProcessNext(env, pages, page, q, fuel, pass);
    var q2 := WithoutKind(pass.0, ResolvedKind);
    out := ProcessSettles(env, pass.1, page, q2, fuel - 1, !pass.2);
    SettlesAllThen(WithoutKind(q, DefKind), WithoutKind(q2, DefKind), out);
  }

  /** One pass and the removal of resolved definitions, seen from the text and calls of the queue. */
  lemma OnePassSettles(env: Env, pages: Pages, page: int, q: seq<Token>, finalLoop: bool, pass: (seq<Token>, Pages, bool))
    requires forall t :: t in q ==> t.kind != ResolvedKind
    requires pass == PassSpec(env, pages, page, q, finalLoop)
    ensures SettlesAll(WithoutKind(q, DefKind), WithoutKind(WithoutKind(pass.0, ResolvedKind), DefKind))
    ensures forall t :: t in WithoutKind(pass.0, ResolvedKind) ==> t.kind != ResolvedKind
    ensures forall t :: t in WithoutKind(q, DefKind) ==> t.kind == TextKind || t.kind == CallKind
  {
    PassPointwise(env, pages, page, q, finalLoop);
    FiltersAfterPass(q, pass.0);
    WithoutKindMembers(q, DefKind);
    WithoutKindMembers(pass.0, ResolvedKind);
  }

  /** A page without `[` is returned unchanged by the whole hook. */
  lemma PlainPage(env: Env, pages: Pages, page: int, src: string, fuel: nat)
    requires forall k :: 0 <= k < |src| ==> src[k] != '['
    ensures Join(ProcessSpec(env, pages, page, Tokens(src), fuel, false).0) == src
  {
    TokensVerbatim(src);
    ProcessOverText(env, pages, page, Tokens(src), fuel, false);
  }
}
