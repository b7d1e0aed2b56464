/**
 * `replaceVar` of src/index.js and the nested-call substitution that
 * `processVariableQueue` applies to a definition's content, as functions of
 * the page store. The math evaluator and JavaScript's string-to-number test
 * are foreign and come in through `Env`.
 */
module Resolve {
  import opened Options
  import opened Text
  import opened Store
  import opened Scanner
  import opened Replace
  import opened Links

  /**
   * `evaluate` stands for `mathParser.evaluate` (the string form of its result,
   * or None when it throws); `isNumber` for `!isNaN` on a trimmed, non-empty
   * string.
   */
  datatype Env = Env(evaluate: string -> Option<string>, isNumber: string -> bool)

  /** `!isNaN(s)`: a blank string converts to 0; otherwise the trimmed text decides. */
  predicate IsNumeric(env: Env, s: string) {
    AllSpace(s) || env.isNumber(Trim(s))
  }

  // ---------------------------------------------------------------------
  // label.split(/[a-z]+\(|[+\-*/^(),]/g)

  predicate IsLower(c: char) {
    'a' <= c <= 'z'
  }

  predicate IsMathSymbol(c: char) {
    c == '+' || c == '-' || c == '*' || c == '/' || c == '^' || c == '(' || c == ')' || c == ','
  }

  /** A separator: a lower-case function name with its `(`, or one operator character. */
  predicate IsSeparator(x: string) {
    (|x| == 1 && IsMathSymbol(x[0])) ||
    (|x| >= 2 && x[|x| - 1] == '(' && forall k :: 0 <= k < |x| - 1 ==> IsLower(x[k]))
  }

  /** The end of a separator starting at `q`: a function name with its `(`, or one operator character. */
  function MathSepAt(s: string, q: nat): (r: Option<nat>)
    requires q < |s|
    ensures r.Some? ==> q < r.value <= |s| && IsSeparator(s[q..r.value])
    ensures r.None? ==> !IsMathSymbol(s[q])
  {
    var k := FirstWhere(s, q, c => !IsLower(c));
    if k > q && k < |s| && s[k] == '(' then Some(k + 1)
    else if IsMathSymbol(s[q]) then Some(q + 1)
    else None
  }

  function SplitFrom(s: string, p: nat, q: nat): (r: seq<string>)
    requires p <= q <= |s|
    requires forall m :: p <= m < q ==> !IsMathSymbol(s[m])
    ensures |r| >= 1
    ensures forall piece, k :: piece in r && 0 <= k < |piece| ==> !IsMathSymbol(piece[k])
    decreases |s| - q
  {
    if q == |s| then [s[p..]]
    else match MathSepAt(s, q)
      case Some(e) => [s[p..q]] + SplitFrom(s, e, e)
      case None => SplitFrom(s, p, q + 1)
  }

  /** The pieces between math separators; none contains an operator character. */
  function SplitMath(s: string): (r: seq<string>)
    ensures |r| >= 1
    ensures forall piece, k :: piece in r && 0 <= k < |piece| ==> !IsMathSymbol(piece[k])
  {
    SplitFrom(s, 0, 0)
  }

  /** The separators SplitFrom cuts at, in order: one fewer than the pieces. */
  function SeparatorsFrom(s: string, p: nat, q: nat): (r: seq<string>)
    requires p <= q <= |s|
    requires forall m :: p <= m < q ==> !IsMathSymbol(s[m])
    ensures |r| == |SplitFrom(s, p, q)| - 1
    ensures forall x :: x in r ==> IsSeparator(x)
    decreases |s| - q
  {
    if q == |s| then []
    else match MathSepAt(s, q)
      case Some(e) => [s[q..e]] + SeparatorsFrom(s, e, e)
      case None => SeparatorsFrom(s, p, q + 1)
  }

  function Separators(s: string): (r: seq<string>)
    ensures |r| == |SplitMath(s)| - 1
    ensures forall x :: x in r ==> IsSeparator(x)
  {
    SeparatorsFrom(s, 0, 0)
  }

  /** The pieces with the separators put back between them. */
  function Interleave(pieces: seq<string>, seps: seq<string>): string
    requires |pieces| == |seps| + 1
    decreases |seps|
  {
    if seps == [] then pieces[0] else pieces[0] + seps[0] + Interleave(pieces[1..], seps[1..])
  }

  /** Putting the separators back between the pieces gives back the text from `p`. */
  lemma {:induction false} SplitFromRebuilds(s: string, p: nat, q: nat)
    requires p <= q <= |s|
    requires forall m :: p <= m < q ==> !IsMathSymbol(s[m])
    ensures Interleave(SplitFrom(s, p, q), SeparatorsFrom(s, p, q)) == s[p..]
    decreases |s| - q
  {
    if q < |s| {
      match MathSepAt(s, q)
      case Some(e) =>
        var pieces := SplitFrom(s, e, e);
        var seps := SeparatorsFrom(s, e, e);
        SplitFromRebuilds(s, e, e);
        assert ([s[p..q]] + pieces)[1..] == pieces && ([s[q..e]] + seps)[1..] == seps;
        assert Interleave([s[p..q]] + pieces, [s[q..e]] + seps) == s[p..q] + s[q..e] + s[e..];
        SlicesJoin(s, p, q, e);
      case None =>
        SplitFromRebuilds(s, p, q + 1);
    }
  }

  lemma SlicesJoin(s: string, p: nat, q: nat, e: nat)
    requires p <= q <= e <= |s|
    ensures s[p..] == s[p..q] + s[q..e] + s[e..]
  {
    assert s[p..] == s[p..q] + s[q..];
    assert s[q..] == s[q..e] + s[e..];
  }

  /** The label is its pieces joined by its separators. */
  lemma SplitMathRebuilds(s: string)
    ensures Interleave(SplitMath(s), Separators(s)) == s
  {
    SplitFromRebuilds(s, 0, 0);
    assert s[0..] == s;
  }

  lemma TrimOfNonBlank(s: string)
    requires !AllSpace(s)
    ensures Trim(s) != []
  {
    var k :| 0 <= k < |s| && !IsSpace(s[k]);
    var t := TrimStart(s);
    var u := TrimEnd(t);
    assert u != [];
  }

  /** `matches.filter(isNaN).map(trim)` */
  function MathVarsOf(env: Env, pieces: seq<string>): (r: seq<string>)
    ensures forall v :: v in r ==> v != []
  {
    if pieces == [] then []
    else
      var rest := MathVarsOf(env, pieces[1..]);
      if IsNumeric(env, pieces[0]) then rest
      else
        TrimOfNonBlank(pieces[0]);
        [Trim(pieces[0])] + rest
  }

  /** The names a label mentions: its non-numeric pieces, trimmed. */
  function MathVars(env: Env, name: string): (r: seq<string>)
    ensures forall v :: v in r ==> v != []
  {
    MathVarsOf(env, SplitMath(name))
  }

  /** `prefix[0] == '$' && mathVars[0] !== label.trim()` */
  predicate TakesMathPath(env: Env, prefix: string, name: string) {
    |prefix| > 0 && prefix[0] == '$' &&
    (var vs := MathVars(env, name); vs == [] || vs[0] != Trim(name))
  }

  /** The value substituted for a name in an expression: a resolved, non-empty, numeric record. */
  function NumericValue(env: Env, pages: Pages, page: int, name: string): Option<string> {
    match LookupSpec(pages, name, page)
    case None => None
    case Some(e) => if e.resolved && e.content != [] && IsNumeric(env, e.content) then Some(e.content) else None
  }

  /** `mathVars.forEach(...)`: each name in turn is replaced at word boundaries by its value. */
  function Substitute(env: Env, pages: Pages, page: int, vars: seq<string>, acc: string): string
    requires forall v :: v in vars ==> v != []
  {
    if vars == [] then acc
    else
      assert vars[0] in vars && forall v :: v in vars[1..] ==> v in vars;
      var next := match NumericValue(env, pages, page, vars[0])
        case Some(value) => ReplaceWord(acc, vars[0], value)
        case None => acc;
      Substitute(env, pages, page, vars[1..], next)
  }

  /** The closing formats: `[label](href "title")` and `![label](href  "title")`. */
  function FormatLink(prefix: string, name: string, l: Link): Option<string> {
    var t := if l.title.Some? && l.title.value != [] then " \"" + l.title.value + "\"" else "";
    if prefix == [] then Some("[" + name + "](" + l.href + t + ")")
    else if prefix[0] == '!' then Some("![" + name + "](" + l.href + " " + t + ")")
    else None
  }

  /** `replaceVar(prefix, label, allowUnresolved)` against the store, from page `page`. */
  function ReplaceVarSpec(env: Env, pages: Pages, page: int, prefix: string, name: string, allowUnresolved: bool): Option<string> {
    if TakesMathPath(env, prefix, name) then
      env.evaluate(Substitute(env, pages, page, MathVars(env, name), name))
    else
      match LookupSpec(pages, name, page)
      case None => None
      case Some(e) =>
        if !e.resolved && !allowUnresolved then None
        else if |prefix| > 0 && prefix[0] == '$' then Some(e.content)
        else match LinkMatch(e.content)
          case None => None
          case Some(l) => FormatLink(prefix, name, l)
  }

  // ---------------------------------------------------------------------
  // Nested calls in a definition

  /** Where `varCallRegex.exec` finds its next match from `c`. */
  function NextCall(s: string, c: nat): (r: Option<nat>)
    requires c <= |s|
    ensures r.Some? ==> c <= r.value < |s| && LabelAt(s, r.value).Some?
    ensures r.None? ==> forall i :: c <= i < |s| ==> LabelAt(s, i).None?
    decreases |s| - c
  {
    if c == |s| then None
    else if LabelAt(s, c).Some? then Some(c)
    else NextCall(s, c + 1)
  }

  /**
   * The loop over the calls in `content` from `c`: each call that resolves is
   * replaced everywhere in `temp` by its value; one that does not clears
   * `resolved`. Unresolved entries are not accepted here.
   */
  function ResolveFrom(env: Env, pages: Pages, page: int, content: string, c: nat, temp: string, resolved: bool): (string, bool)
    requires c <= |content|
    decreases |content| - c
  {
    match NextCall(content, c)
    case None => (temp, resolved)
    case Some(i) =>
      var l := LabelAt(content, i).value;
      match ReplaceVarSpec(env, pages, page, l.prefix, l.raw, false)
      case None => ResolveFrom(env, pages, page, content, l.end, temp, false)
      case Some(v) => ResolveFrom(env, pages, page, content, l.end, ReplaceAll(temp, content[i..l.end], v), resolved)
  }

  /** A definition's new content, and whether every call in it was substituted. */
  function ResolveDefSpec(env: Env, pages: Pages, page: int, content: string): (string, bool) {
    ResolveFrom(env, pages, page, content, 0, content, true)
  }
}

/** What `replaceVar` promises for each kind of call, and how a definition's calls are substituted. */
module ResolveFacts {
  import opened Options
  import opened Text
  import opened Store
  import opened Scanner
  import opened Replace
  import opened Links
  import opened Resolve

  /** A label without operator characters is one piece. */
  lemma {:induction false} SplitFromPlain(s: string, p: nat, q: nat)
    requires p <= q <= |s|
    requires forall k :: 0 <= k < |s| ==> !IsMathSymbol(s[k])
    ensures SplitFrom(s, p, q) == [s[p..]]
    decreases |s| - q
  {
    if q < |s| {
      assert MathSepAt(s, q).None?;
      SplitFromPlain(s, p, q + 1);
    }
  }

  lemma {:induction false} MathVarsOfNumbers(env: Env, pieces: seq<string>)
    requires forall piece :: piece in pieces ==> IsNumeric(env, piece)
    ensures MathVarsOf(env, pieces) == []
    decreases |pieces|
  {
    if pieces != [] {
      assert forall piece :: piece in pieces[1..] ==> piece in pieces;
      MathVarsOfNumbers(env, pieces[1..]);
    }
  }

  /**
   * `$[name]` for a plain, non-numeric name is no math: it yields the stored
   * content, provided the record is resolved or unresolved records are allowed.
   */
  lemma VariableCall(env: Env, pages: Pages, page: int, name: string, allowUnresolved: bool)
    requires forall k :: 0 <= k < |name| ==> !IsMathSymbol(name[k])
    requires !IsNumeric(env, name)
    requires LookupSpec(pages, name, page).Some?
    requires LookupSpec(pages, name, page).value.resolved || allowUnresolved
    ensures !TakesMathPath(env, "$", name)
    ensures ReplaceVarSpec(env, pages, page, "$", name, allowUnresolved) == Some(LookupSpec(pages, name, page).value.content)
  {
    SplitFromPlain(name, 0, 0);
    assert MathVarsOf(env, [name][1..]) == [];
    assert MathVars(env, name) == [Trim(name)];
  }

  /** A label whose every piece is a number is evaluated as it stands. */
  lemma NumbersOnly(env: Env, pages: Pages, page: int, name: string, allowUnresolved: bool)
    requires forall piece :: piece in SplitMath(name) ==> IsNumeric(env, piece)
    ensures TakesMathPath(env, "$", name)
    ensures ReplaceVarSpec(env, pages, page, "$", name, allowUnresolved) == env.evaluate(name)
  {
    MathVarsOfNumbers(env, SplitMath(name));
  }

  /**
   * Outside the math path a value needs a record that is resolved (or allowed
   * unresolved); a link or image call needs content that reads as a link; and
   * only the `$` prefix can take the math path.
   */
  lemma NeedsRecord(env: Env, pages: Pages, page: int, prefix: string, name: string, allowUnresolved: bool)
    requires IsPrefix(prefix)
    ensures TakesMathPath(env, prefix, name) ==> prefix == "$"
    ensures var r := ReplaceVarSpec(env, pages, page, prefix, name, allowUnresolved);
      var f := LookupSpec(pages, name, page);
      !TakesMathPath(env, prefix, name) && r.Some? ==> f.Some? && (f.value.resolved || allowUnresolved)
    ensures var r := ReplaceVarSpec(env, pages, page, prefix, name, allowUnresolved);
      var f := LookupSpec(pages, name, page);
      prefix != "$" && r.Some? ==> f.Some? && LinkMatch(f.value.content).Some?
  {
  }

  /** A link or image call whose resolved record reads as a link takes the closing format. */
  lemma LinkRecord(env: Env, pages: Pages, page: int, prefix: string, name: string, allowUnresolved: bool, l: Link)
    requires prefix == "" || prefix == "!"
    requires LookupSpec(pages, name, page).Some? && LookupSpec(pages, name, page).value.resolved
    requires LinkMatch(LookupSpec(pages, name, page).value.content) == Some(l)
    ensures ReplaceVarSpec(env, pages, page, prefix, name, allowUnresolved) == FormatLink(prefix, name, l)
  {
    assert !TakesMathPath(env, prefix, name);
  }

  /** `[name]` whose record is `href "title"` becomes `[name](href "title")`. */
  lemma LinkCall(env: Env, pages: Pages, page: int, name: string, href: string, title: string, external: bool, allowUnresolved: bool)
    requires PlainHref(href) && title != [] && forall k :: 0 <= k < |title| ==> title[k] != '"'
    requires LookupSpec(pages, name, page) == Some(Entry(href + " \"" + title + "\"", true, external))
    ensures ReplaceVarSpec(env, pages, page, "", name, allowUnresolved) == Some("[" + name + "](" + href + " \"" + title + "\")")
  {
    LinkWithTitle(href, title);
    LinkRecord(env, pages, page, "", name, allowUnresolved, Link(href, Some(title)));
    assert FormatLink("", name, Link(href, Some(title))) == Some("[" + name + "](" + href + (" \"" + title + "\"") + ")");
    LinkText(name, href, title);
  }

  lemma LinkText(name: string, href: string, title: string)
    ensures "[" + name + "](" + href + (" \"" + title + "\"") + ")" == "[" + name + "](" + href + " \"" + title + "\")"
  {
  }

  /** `[name]` whose record is a bare destination becomes `[name](href)`. */
  lemma BareLinkCall(env: Env, pages: Pages, page: int, name: string, href: string, external: bool, allowUnresolved: bool)
    requires PlainHref(href)
    requires LookupSpec(pages, name, page) == Some(Entry(href, true, external))
    ensures ReplaceVarSpec(env, pages, page, "", name, allowUnresolved) == Some("[" + name + "](" + href + ")")
  {
    LinkBare(href);
    LinkRecord(env, pages, page, "", name, allowUnresolved, Link(href, None));
    assert FormatLink("", name, Link(href, None)) == Some("[" + name + "](" + href + "" + ")");
    assert "[" + name + "](" + href + "" + ")" == "[" + name + "](" + href + ")";
  }

  /** `![name]` gives `![name](href  "title")`, with two spaces before the title. */
  lemma ImageCall(env: Env, pages: Pages, page: int, name: string, href: string, title: string, external: bool, allowUnresolved: bool)
    requires PlainHref(href) && title != [] && forall k :: 0 <= k < |title| ==> title[k] != '"'
    requires LookupSpec(pages, name, page) == Some(Entry(href + " \"" + title + "\"", true, external))
    ensures ReplaceVarSpec(env, pages, page, "!", name, allowUnresolved) == Some("![" + name + "](" + href + "  \"" + title + "\")")
  {
    LinkWithTitle(href, title);
    LinkRecord(env, pages, page, "!", name, allowUnresolved, Link(href, Some(title)));
    assert FormatLink("!", name, Link(href, Some(title))) == Some("![" + name + "](" + href + " " + (" \"" + title + "\"") + ")");
    ImageText(name, href, title);
  }

  lemma ImageText(name: string, href: string, title: string)
    ensures "![" + name + "](" + href + " " + (" \"" + title + "\"") + ")" == "![" + name + "](" + href + "  \"" + title + "\")"
  {
  }

  /** `![name]` with a bare destination gives `![name](href )`, with a trailing space. */
  lemma BareImageCall(env: Env, pages: Pages, page: int, name: string, href: string, external: bool, allowUnresolved: bool)
    requires PlainHref(href)
    requires LookupSpec(pages, name, page) == Some(Entry(href, true, external))
    ensures ReplaceVarSpec(env, pages, page, "!", name, allowUnresolved) == Some("![" + name + "](" + href + " )")
  {
    LinkBare(href);
    LinkRecord(env, pages, page, "!", name, allowUnresolved, Link(href, None));
    assert "![" + name + "](" + href + " " + "" + ")" == "![" + name + "](" + href + " )";
  }

  lemma SplitSample()
    ensures SplitMath("x+1") == ["x", "1"]
  {
    var s := "x+1";
    assert MathSepAt(s, 0).None?;
    assert MathSepAt(s, 1) == Some(2);
    assert MathSepAt(s, 2).None?;
    assert SplitFrom(s, 2, 2) == ["1"];
    assert s[0..1] == "x";
    assert SplitFrom(s, 0, 1) == ["x"] + SplitFrom(s, 2, 2);
  }

  lemma PiecesSample(env: Env)
    requires env.isNumber("1") && !env.isNumber("x")
    ensures MathVarsOf(env, ["x", "1"]) == ["x"]
  {
    TrimUntouched("x");
    TrimUntouched("1");
    assert !AllSpace("x") by {
      assert !IsSpace("x"[0]);
    }
    var pieces := ["x", "1"];
    assert pieces[1..] == ["1"] && ["1"][1..] == [];
    assert IsNumeric(env, "1");
    var tail := MathVarsOf(env, ["1"]);
    assert tail == [] + MathVarsOf(env, []);
    assert MathVarsOf(env, pieces) == ["x"] + tail;
  }

  lemma MathVarsSample(env: Env)
    requires env.isNumber("1") && !env.isNumber("x")
    ensures MathVars(env, "x+1") == ["x"]
  {
    SplitSample();
    PiecesSample(env);
  }

  lemma ReplaceSample()
    ensures ReplaceWord("x+1", "x", "2") == "2+1"
  {
    var s := "x+1";
    assert ReplaceFrom(s, 1, "x", "2", true) == "+1";
  }

  /** A numeric record is substituted into an expression before it is evaluated. */
  lemma SubstituteSample(env: Env, pages: Pages, page: int, allowUnresolved: bool)
    requires env.isNumber("1") && env.isNumber("2") && !env.isNumber("x")
    requires LookupSpec(pages, "x", page) == Some(Entry("2", true, false))
    ensures ReplaceVarSpec(env, pages, page, "$", "x+1", allowUnresolved) == env.evaluate("2+1")
  {
    MathPathSample(env, pages, page, allowUnresolved);
    NumericSample(env, pages, page);
  }

  lemma MathPathSample(env: Env, pages: Pages, page: int, allowUnresolved: bool)
    requires env.isNumber("1") && !env.isNumber("x")
    ensures ReplaceVarSpec(env, pages, page, "$", "x+1", allowUnresolved) == env.evaluate(Substitute(env, pages, page, ["x"], "x+1"))
  {
    MathVarsSample(env);
    NotWholeSample();
    MathPathOne(env, pages, page, "x+1", "x", allowUnresolved);
  }

  lemma NotWholeSample()
    ensures "x" != Trim("x+1")
  {
    TrimUntouched("x+1");
  }

  /** An expression with a single variable other than the whole label takes the math path. */
  lemma MathPathOne(env: Env, pages: Pages, page: int, name: string, v: string, allowUnresolved: bool)
    requires MathVars(env, name) == [v] && v != Trim(name)
    ensures ReplaceVarSpec(env, pages, page, "$", name, allowUnresolved) == env.evaluate(Substitute(env, pages, page, [v], name))
  {
    assert TakesMathPath(env, "$", name);
  }

  lemma NumericSample(env: Env, pages: Pages, page: int)
    requires env.isNumber("2")
    requires LookupSpec(pages, "x", page) == Some(Entry("2", true, false))
    ensures Substitute(env, pages, page, ["x"], "x+1") == "2+1"
  {
    TrimUntouched("2");
    NumericRecord(env, pages, page, "x", "2", false);
    SubstituteOne(env, pages, page, "x", "2", "x+1");
    ReplaceSample();
  }

  lemma NumericRecord(env: Env, pages: Pages, page: int, name: string, content: string, external: bool)
    requires LookupSpec(pages, name, page) == Some(Entry(content, true, external))
    requires content != [] && env.isNumber(Trim(content))
    ensures NumericValue(env, pages, page, name) == Some(content)
  {
  }

  lemma SubstituteOne(env: Env, pages: Pages, page: int, v: string, value: string, acc: string)
    requires v != [] && NumericValue(env, pages, page, v) == Some(value)
    ensures Substitute(env, pages, page, [v], acc) == ReplaceWord(acc, v, value)
  {
    assert [v][1..] == [];
  }

  /**
   * When no call in the content can be resolved, the content is left as it
   * is, and it counts as resolved only if it holds no call at all.
   */
  lemma {:induction false} NothingResolves(env: Env, pages: Pages, page: int, content: string, c: nat, temp: string, resolved: bool)
    requires c <= |content|
    requires forall i :: c <= i < |content| && LabelAt(content, i).Some? ==>
      ReplaceVarSpec(env, pages, page, LabelAt(content, i).value.prefix, LabelAt(content, i).value.raw, false).None?
    ensures ResolveFrom(env, pages, page, content, c, temp, resolved) == (temp, resolved && NextCall(content, c).None?)
    decreases |content| - c
  {
    match NextCall(content, c)
    case None =>
    case Some(i) =>
      var l := LabelAt(content, i).value;
      NothingResolves(env, pages, page, content, l.end, temp, false);
  }

  /** A definition without a `[` is final as it is. */
  lemma PlainDefinition(env: Env, pages: Pages, page: int, content: string)
    requires forall k :: 0 <= k < |content| ==> content[k] != '['
    ensures ResolveDefSpec(env, pages, page, content) == (content, true)
  {
  }
}
