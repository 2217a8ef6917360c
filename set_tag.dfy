/**
 * The `set` tag (lib/twig/tags/set_tag.rb): `{% set name = expr %}` binds
 * the value of an expression, `{% set name %}...{% endset %}` binds the
 * rendered text of its body. Either way the binding goes to the base frame
 * of the context, the assign score grows by the value's cost, and the tag
 * itself renders as nothing.
 */
module SetTag {
  import opened Wrappers
  import opened Values
  import opened Grammar
  import opened Contexts

  /** Translation key of the error raised for markup that names no target. */
  const SyntaxErrorKey: string := "errors.syntax.set"

  /** Translation key of the error raised when a block `set` has no `endset`. */
  const NeverClosedKey: string := "errors.syntax.tag_never_closed"

  /** How the tag's markup was read: the inline form, the block form, or a syntax error. */
  datatype SetMarkup = Inline(to: string, from: string) | Block(to: string) | SyntaxErr(key: string)

  // ---------------------------------------------------------------------
  // TagSyntax = /(VariableSignature+)\s*=\s*(.*)\s*/m
  // ---------------------------------------------------------------------

  /** `x` less its leading white space, which the greedy `\s*` before `(.*)` takes. */
  function Unspaced(x: string): (r: string)
    ensures |r| <= |x| && (r == [] || !IsSpace(r[0]))
  {
    x[SpaceLen(x)..]
  }

  /** What Unspaced removes is white space, and only that. */
  lemma UnspacedSplit(x: string)
    ensures x == x[..SpaceLen(x)] + Unspaced(x) && AllSpace(x[..SpaceLen(x)])
  {
  }

  /**
   * A match of TagSyntax at the start of `u`: a target run, white space,
   * `=`, white space, and everything after as the expression; with the
   * `m` flag `.` takes line breaks too, so `(.*)` runs to the end.
   */
  predicate TagShape(u: string, name: string, ws1: string, ws2: string, rest: string) {
    && u == name + ws1 + "=" + ws2 + rest
    && IsSignatureRun(name) && AllSpace(ws1) && AllSpace(ws2)
  }

  /** Where a TagSyntax match at the start of `u` cuts it: target length g, then w spaces before `=`. */
  datatype TagCut = TagCut(g: nat, w: nat)

  function TagCutAt(u: string): (r: Option<TagCut>)
    ensures r.Some? ==> var TagCut(g, w) := r.value;
      && 0 < g && g + w < |u| && u[g + w] == '='
      && IsSignatureRun(u[..g]) && AllSpace(u[g..g + w])
  {
    var g := SignatureRunLen(u);
    if g == 0 then None
    else
      var w := SpaceLen(u[g..]);
      assert u[g..][..w] == u[g..g + w];
      if g + w < |u| && u[g + w] == '=' then Some(TagCut(g, w)) else None
  }

  /** TagSyntax at the start of `u`, with its two groups. */
  function TagSyntaxAt(u: string): (r: Option<(string, string)>)
  {
    match TagCutAt(u)
    case None => None
    case Some(TagCut(g, w)) => Some((u[..g], Unspaced(u[g + w + 1..])))
  }

  /** The four parts of a cut, put back together. */
  lemma CutParts(u: string, g: nat, w: nat)
    requires g + w < |u| && u[g + w] == '='
    ensures u == u[..g] + u[g..g + w] + "=" + u[g + w + 1..]
  {
    assert u[g + w..g + w + 1] == "=";
    assert u[..g + w] == u[..g] + u[g..g + w];
    assert u[..g + w + 1] == u[..g + w] + u[g + w..g + w + 1];
    assert u == u[..g + w + 1] + u[g + w + 1..];
  }

  lemma ShapeOfCut(u: string, g: nat, w: nat)
    requires 0 < g && g + w < |u| && u[g + w] == '='
    requires IsSignatureRun(u[..g]) && AllSpace(u[g..g + w])
    ensures var after := u[g + w + 1..];
      TagShape(u, u[..g], u[g..g + w], after[..SpaceLen(after)], Unspaced(after))
  {
    UnspacedSplit(u[g + w + 1..]);
    CutParts(u, g, w);
  }

  /** What TagSyntaxAt reports is a match of the pattern; the expression has no leading white space. */
  lemma TagSyntaxAtSound(u: string)
    requires TagSyntaxAt(u).Some?
    ensures var (to, from) := TagSyntaxAt(u).value;
      && (from == [] || !IsSpace(from[0]))
      && exists ws1, ws2 :: TagShape(u, to, ws1, ws2, from)
  {
    var TagCut(g, w) := TagCutAt(u).value;
    ShapeOfCut(u, g, w);
  }

  /** A signature run followed by a stop character is the run the greedy matcher takes. */
  lemma TargetEnd(u: string, name: string, tail: string)
    requires u == name + tail && name != [] && IsSignatureRun(name)
    requires tail != [] && IsSignatureStop(tail[0])
    ensures SignatureRunLen(u) == |name| && u[..|name|] == name && u[|name|..] == tail
  {
    assert u[..|name|] == name;
    assert u[|name|] == tail[0];
    SignatureRunEndsAtStop(u, |name|);
  }

  /** White space, then `=`: the greedy `\s*` stops right at the `=`. */
  lemma SpacesThenEquals(tail: string, ws: string, x: string)
    requires tail == ws + "=" + x && AllSpace(ws)
    ensures SpaceLen(tail) == |ws| && tail[|ws|] == '=' && tail[|ws| + 1..] == x
  {
    assert tail[..|ws|] == ws;
    SpaceLenUnique(tail, |ws|);
  }

  lemma CutFromLengths(u: string, j: nat, w: nat)
    requires 0 < j == SignatureRunLen(u) && w == SpaceLen(u[j..]) && j + w < |u| && u[j + w] == '='
    ensures TagCutAt(u) == Some(TagCut(j, w))
  {
    var g := SignatureRunLen(u);
    assert g == j && SpaceLen(u[g..]) == w;
  }

  /** The target and the white space after it, as a matcher sees them. */
  lemma TargetAndSpaces(u: string, name: string, ws1: string, x: string)
    requires u == name + (ws1 + "=" + x) && IsSignatureRun(name) && AllSpace(ws1)
    ensures SignatureRunLen(u) == |name| && SpaceLen(u[|name|..]) == |ws1|
    ensures u[..|name|] == name && u[|name| + |ws1|] == '=' && u[|name| + |ws1| + 1..] == x
  {
    var tail := ws1 + "=" + x;
    SignatureRunStart(name);
    assert IsSignatureStop(tail[0]) by {
      if ws1 != [] {
        assert tail[0] == ws1[0];
      }
    }
    TargetEnd(u, name, tail);
    SpacesThenEquals(tail, ws1, x);
  }

  lemma CutOfShape(u: string, name: string, ws1: string, x: string)
    requires u == name + (ws1 + "=" + x) && IsSignatureRun(name) && AllSpace(ws1)
    ensures TagCutAt(u) == Some(TagCut(|name|, |ws1|))
    ensures u[..|name|] == name && u[|name| + |ws1| + 1..] == x
  {
    TargetAndSpaces(u, name, ws1, x);
    CutFromLengths(u, |name|, |ws1|);
  }

  lemma SyntaxOfCut(u: string, j: nat, w: nat, name: string, x: string)
    requires TagCutAt(u) == Some(TagCut(j, w))
    requires u[..j] == name && u[j + w + 1..] == x
    ensures TagSyntaxAt(u) == Some((name, Unspaced(x)))
  {
  }

  lemma RegroupShape(u: string, name: string, ws1: string, ws2: string, rest: string)
    requires TagShape(u, name, ws1, ws2, rest)
    ensures u == name + (ws1 + "=" + (ws2 + rest))
  {
  }

  /**
   * Every way of matching TagSyntax at the start of `u` gives the same
   * target: the regex engine's backtracking cannot choose another one,
   * because white space and `=` stop a signature run.
   */
  lemma TagSyntaxAtComplete(u: string, name: string, ws1: string, ws2: string, rest: string)
    requires TagShape(u, name, ws1, ws2, rest)
    ensures TagSyntaxAt(u) == Some((name, Unspaced(ws2 + rest)))
  {
    RegroupShape(u, name, ws1, ws2, rest);
    CutOfShape(u, name, ws1, ws2 + rest);
    SyntaxOfCut(u, |name|, |ws1|, name, ws2 + rest);
  }

  /** A match of TagSyntax always contains an `=`. */
  lemma TagSyntaxHasEquals(u: string)
    requires TagSyntaxAt(u).Some?
    ensures exists i | 0 <= i < |u| :: u[i] == '='
  {
    var TagCut(g, w) := TagCutAt(u).value;
    assert u[g + w] == '=';
  }

  /** Leftmost position where TagSyntax matches, or |t|: Ruby's `=~` scans from the left. */
  function TagSyntaxIndex(t: string): (k: nat)
    ensures k <= |t|
    ensures k < |t| ==> TagSyntaxAt(t[k..]).Some?
    decreases |t|
  {
    if t == [] then 0
    else if TagSyntaxAt(t).Some? then 0
    else
      var k := TagSyntaxIndex(t[1..]);
      assert t[1 + k..] == t[1..][k..];
      1 + k
  }

  lemma {:induction false} TagSyntaxIndexLeftmost(t: string)
    ensures forall i {:trigger TagSyntaxAt(t[i..])} | 0 <= i < TagSyntaxIndex(t) :: TagSyntaxAt(t[i..]).None?
    decreases |t|
  {
    if t != [] && TagSyntaxAt(t).None? {
      TagSyntaxIndexLeftmost(t[1..]);
      forall i | 1 <= i < TagSyntaxIndex(t)
        ensures TagSyntaxAt(t[i..]).None?
      {
        assert t[i..] == t[1..][i - 1..];
      }
    }
  }

  // ---------------------------------------------------------------------
  // BlockSyntax = /(VariableSignature+)/
  // ---------------------------------------------------------------------

  /** Leftmost position where a signature run starts, or |t|. */
  function BlockSyntaxIndex(t: string): (k: nat)
    ensures k <= |t|
    ensures k < |t| ==> SignatureRunLen(t[k..]) > 0
    decreases |t|
  {
    if t == [] then 0
    else if SignatureRunLen(t) > 0 then 0
    else
      var k := BlockSyntaxIndex(t[1..]);
      assert t[1 + k..] == t[1..][k..];
      1 + k
  }

  lemma {:induction false} BlockSyntaxIndexLeftmost(t: string)
    ensures forall i {:trigger SignatureRunLen(t[i..])} | 0 <= i < BlockSyntaxIndex(t) :: SignatureRunLen(t[i..]) == 0
    decreases |t|
  {
    if t != [] && SignatureRunLen(t) == 0 {
      BlockSyntaxIndexLeftmost(t[1..]);
      forall i | 1 <= i < BlockSyntaxIndex(t)
        ensures SignatureRunLen(t[i..]) == 0
      {
        assert t[i..] == t[1..][i - 1..];
      }
    }
  }

  /**
   * SetTag#initialize: TagSyntax is tried first, then BlockSyntax; markup
   * matching neither raises the `errors.syntax.set` syntax error.
   */
  function ParseSetMarkup(markup: string): (r: SetMarkup)
  {
    var k := TagSyntaxIndex(markup);
    if k < |markup| then
      var (to, from) := TagSyntaxAt(markup[k..]).value;
      Inline(to, from)
    else
      var b := BlockSyntaxIndex(markup);
      if b < |markup| then Block(markup[b..][..SignatureRunLen(markup[b..])])
      else SyntaxErr(SyntaxErrorKey)
  }

  // ---------------------------------------------------------------------
  // What the classification means
  // ---------------------------------------------------------------------

  /** A name character anywhere makes BlockSyntax match somewhere. */
  lemma NameCharFindsBlock(m: string, i: nat)
    requires i < |m| && IsNameChar(m[i])
    ensures BlockSyntaxIndex(m) <= i
  {
    BlockSyntaxIndexLeftmost(m);
    NameCharStartsRun(m[i..]);
  }

  /** Where TagSyntax or BlockSyntax matches there is a name character. */
  lemma RunHasNameChar(m: string, k: nat)
    requires k < |m| && SignatureRunLen(m[k..]) > 0
    ensures exists i | k <= i < |m| :: IsNameChar(m[i])
  {
    SignatureRunHasNameChar(m[k..]);
    if IsNameChar(m[k..][0]) {
      assert IsNameChar(m[k]);
    } else {
      assert IsNameChar(m[k + 1]);
    }
  }

  /** The markup is a syntax error exactly when it holds no name character at all. */
  lemma SyntaxErrIff(m: string)
    ensures ParseSetMarkup(m).SyntaxErr? <==> forall i | 0 <= i < |m| :: !IsNameChar(m[i])
    ensures ParseSetMarkup(m).SyntaxErr? ==> ParseSetMarkup(m).key == SyntaxErrorKey
  {
    if ParseSetMarkup(m).SyntaxErr? {
      forall i | 0 <= i < |m|
        ensures !IsNameChar(m[i])
      {
        if IsNameChar(m[i]) {
          NameCharFindsBlock(m, i);
        }
      }
    } else {
      var k := TagSyntaxIndex(m);
      if k < |m| {
        var TagCut(g, w) := TagCutAt(m[k..]).value;
        RunHasNameChar(m, k);
      } else {
        RunHasNameChar(m, BlockSyntaxIndex(m));
      }
    }
  }

  /** Markup holding a TagSyntax match anywhere takes the inline form. */
  lemma InlineWhenShape(m: string, s: nat, name: string, ws1: string, ws2: string, rest: string)
    requires s <= |m| && TagShape(m[s..], name, ws1, ws2, rest)
    ensures ParseSetMarkup(m).Inline?
  {
    TagSyntaxAtComplete(m[s..], name, ws1, ws2, rest);
    TagSyntaxIndexLeftmost(m);
  }

  /** The inline form's target and expression come from a match of TagSyntax in the markup. */
  lemma InlineSound(m: string)
    requires ParseSetMarkup(m).Inline?
    ensures var Inline(to, from) := ParseSetMarkup(m);
      && (from == [] || !IsSpace(from[0]))
      && exists s | 0 <= s < |m| :: exists ws1, ws2 :: TagShape(m[s..], to, ws1, ws2, from)
  {
    var k := TagSyntaxIndex(m);
    TagSyntaxAtSound(m[k..]);
  }

  /**
   * The block form's target is the longest signature run at the first
   * place one starts; no name character comes before it.
   */
  lemma BlockSound(m: string)
    requires ParseSetMarkup(m).Block?
    ensures var to := ParseSetMarkup(m).to;
      && IsSignatureRun(to)
      && exists b | 0 <= b < |m| ::
        && |to| <= |m| - b
        && m[b..][..|to|] == to
        && (forall i | 0 <= i < b :: !IsNameChar(m[i]))
        && (forall j | |to| < j <= |m| - b :: !IsSignatureRun(m[b..][..j]))
  {
    var b := BlockSyntaxIndex(m);
    forall i | 0 <= i < b
      ensures !IsNameChar(m[i])
    {
      if IsNameChar(m[i]) {
        NameCharFindsBlock(m, i);
      }
    }
    forall j | SignatureRunLen(m[b..]) < j <= |m| - b
      ensures !IsSignatureRun(m[b..][..j])
    {
      SignatureRunLongest(m[b..], j);
    }
  }

  /** Text made of stop characters matches neither pattern at any of its positions. */
  lemma StopLead(lead: string, x: string, i: nat)
    requires forall k | 0 <= k < |lead| :: IsSignatureStop(lead[k])
    requires i < |lead|
    ensures SignatureRunLen((lead + x)[i..]) == 0 && TagSyntaxAt((lead + x)[i..]).None?
  {
    assert (lead + x)[i..][0] == lead[i];
  }

  /** TagSyntax first matches right after a lead of stop characters. */
  lemma TagIndexAfterLead(lead: string, x: string)
    requires forall k | 0 <= k < |lead| :: IsSignatureStop(lead[k])
    requires TagSyntaxAt(x).Some?
    ensures TagSyntaxIndex(lead + x) == |lead|
  {
    var m := lead + x;
    TagSyntaxIndexLeftmost(m);
    var k := TagSyntaxIndex(m);
    assert m[|lead|..] == x;
    if k < |lead| {
      StopLead(lead, x, k);
    }
  }

  /**
   * `name = expr` after a lead of stop characters (white space, quotes, ...)
   * is the inline form binding `name` to `expr`; the white space around
   * `=` is not part of either.
   */
  lemma InlineOfShape(lead: string, name: string, ws1: string, ws2: string, expr: string)
    requires forall k | 0 <= k < |lead| :: IsSignatureStop(lead[k])
    requires IsSignatureRun(name) && AllSpace(ws1) && AllSpace(ws2)
    requires expr == [] || !IsSpace(expr[0])
    ensures ParseSetMarkup(lead + (name + ws1 + "=" + ws2 + expr)) == Inline(name, expr)
  {
    var x := name + ws1 + "=" + ws2 + expr;
    var m := lead + x;
    TagSyntaxAtComplete(x, name, ws1, ws2, expr);
    TagIndexAfterLead(lead, x);
    assert m[|lead|..] == x;
    SpaceLenUnique(ws2 + expr, |ws2|);
    assert (ws2 + expr)[|ws2|..] == expr;
  }

  /** Markup with no `=` never matches TagSyntax. */
  lemma NoEqualsNoTag(m: string)
    requires forall i | 0 <= i < |m| :: m[i] != '='
    ensures TagSyntaxIndex(m) == |m|
  {
    var k := TagSyntaxIndex(m);
    if k < |m| {
      TagSyntaxHasEquals(m[k..]);
    }
  }

  /**
   * A signature run after a lead of stop characters, ended by a stop
   * character or by the end of the markup, is the block form's target when
   * the markup has no `=`.
   */
  lemma BlockOfShape(lead: string, name: string, rest: string)
    requires forall k | 0 <= k < |lead| :: IsSignatureStop(lead[k])
    requires IsSignatureRun(name)
    requires rest == [] || IsSignatureStop(rest[0])
    requires forall i | 0 <= i < |lead + (name + rest)| :: (lead + (name + rest))[i] != '='
    ensures ParseSetMarkup(lead + (name + rest)) == Block(name)
  {
    var x := name + rest;
    var m := lead + x;
    NoEqualsNoTag(m);
    assert x[..|name|] == name;
    assert |name| == |x| || x[|name|] == rest[0];
    SignatureRunEndsAtStop(x, |name|);
    BlockSyntaxIndexLeftmost(m);
    var b := BlockSyntaxIndex(m);
    assert m[|lead|..] == x;
    if b < |lead| {
      StopLead(lead, x, b);
    }
  }

  /** A non-empty string of name characters is a signature run. */
  lemma NameCharsRun(t: string)
    requires t != [] && forall i | 0 <= i < |t| :: IsNameChar(t[i])
    ensures IsSignatureRun(t)
  {
  }

  // ---------------------------------------------------------------------
  // The markups of the engine's own set-tag tests
  // ---------------------------------------------------------------------

  /**
   * `-` is a name character, so `this-thing` is one target.
   * The parameters only name the literals, which keeps the proof cheap.
   */
  lemma HyphenatedName(to: string)
    requires to == "this-thing"
    ensures IsSignatureRun(to)
  {
    NameCharsRun(to);
  }

  /**
   * `this-thing = 'Print this-thing' `: a hyphenated target, a quoted expression.
   * The parameters only name the literals, which keeps the proof cheap.
   */
  lemma HyphenatedInline(m: string, to: string, ws: string, from: string)
    requires m == "this-thing = 'Print this-thing' "
    requires to == "this-thing" && ws == " " && from == "'Print this-thing' "
    ensures ParseSetMarkup(m) == Inline(to, from)
  {
    HyphenatedName(to);
    assert m == [] + (to + ws + "=" + ws + from);
    InlineOfShape([], to, ws, ws, from);
  }

  /** `foo = values `. The parameters only name the literals, which keeps the proof cheap. */
  lemma PlainInline(m: string, to: string, ws: string, from: string)
    requires m == "foo = values " && to == "foo" && ws == " " && from == "values "
    ensures ParseSetMarkup(m) == Inline(to, from)
  {
    NameCharsRun(to);
    assert m == [] + (to + ws + "=" + ws + from);
    InlineOfShape([], to, ws, ws, from);
  }

  /**
   * `'var' `: the quotes are not part of the block's target.
   * The parameters only name the literals, which keeps the proof cheap.
   */
  lemma QuotedBlock(m: string, lead: string, to: string, rest: string)
    requires m == "'var' " && lead == "'" && to == "var" && rest == "' "
    ensures ParseSetMarkup(m) == Block(to)
  {
    NameCharsRun(to);
    assert m == lead + (to + rest);
    BlockOfShape(lead, to, rest);
  }

  /** `this-thing `. The parameters only name the literals, which keeps the proof cheap. */
  lemma HyphenatedBlock(m: string, to: string, rest: string)
    requires m == "this-thing " && to == "this-thing" && rest == " "
    ensures ParseSetMarkup(m) == Block(to)
  {
    HyphenatedName(to);
    assert m == [] + (to + rest);
    BlockOfShape([], to, rest);
  }

  /**
   * `foo not values `: without `=` this is the block form with target
   * `foo`, which then fails for want of a closing tag.
   * The parameters only name the literals, which keeps the proof cheap.
   */
  lemma MissingEqualsBlock(m: string, to: string, rest: string)
    requires m == "foo not values " && to == "foo" && rest == " not values "
    ensures ParseSetMarkup(m) == Block(to)
  {
    NameCharsRun(to);
    assert m == [] + (to + rest);
    BlockOfShape([], to, rest);
  }

  /** Markup of quotes and white space only is the syntax error. */
  lemma QuotesOnlyError(m: string)
    requires forall i | 0 <= i < |m| :: IsSpace(m[i]) || IsQuote(m[i])
    ensures ParseSetMarkup(m) == SyntaxErr(SyntaxErrorKey)
  {
    assert forall i | 0 <= i < |m| :: !IsNameChar(m[i]);
    SyntaxErrIff(m);
  }

  // ---------------------------------------------------------------------
  // The body of the block form
  // ---------------------------------------------------------------------

  const SetTagName: string := "set"
  const EndTagName: string := "endset"

  /** A token of the split template, with a tag's name already separated from its markup. */
  datatype Token = Text(text: string) | VarToken(markup: string) | TagToken(name: string, markup: string)

  /** A set tag once parsed: the inline form, or the block form with its body and the closing tag's markup. */
  datatype SetNode = InlineSet(to: string, from: string) | BlockSet(to: string, body: seq<Node>, endMarkup: string)

  /** A node of a block body: a token kept as it is, or a nested set tag with its markup. */
  datatype Node = Raw(token: Token) | Nested(markup: string, tag: SetNode)

  predicate IsEndTag(t: Token) {
    t.TagToken? && t.name == EndTagName
  }

  predicate IsSetTag(t: Token) {
    t.TagToken? && t.name == SetTagName
  }

  /**
   * Build the set tag from its markup and, for the block form only, take
   * its body from the tokens that follow it; the tokens left over come
   * back with the node.
   */
  function ParseSet(markup: string, tokens: seq<Token>): (r: Result<(SetNode, seq<Token>), string>)
    ensures r.Ok? ==> |r.value.1| <= |tokens|
    decreases |tokens|, 2
  {
    ParseForm(ParseSetMarkup(markup), tokens)
  }

  /** The same, once the markup has been classified. */
  function ParseForm(c: SetMarkup, tokens: seq<Token>): (r: Result<(SetNode, seq<Token>), string>)
    ensures r.Ok? ==> |r.value.1| <= |tokens|
    decreases |tokens|, 1
  {
    match c
    case SyntaxErr(key) => Err(key)
    case Inline(to, from) => Ok((InlineSet(to, from), tokens))
    case Block(to) =>
      match ParseBody(tokens)
      case Err(e) => Err(e)
      case Ok((body, endMarkup, rest)) => Ok((BlockSet(to, body, endMarkup), rest))
  }

  /**
   * The body of a block-form set tag: tokens up to the matching `endset`,
   * with nested set tags parsed in turn. Running out of tokens first is
   * the never-closed error.
   */
  function ParseBody(tokens: seq<Token>): (r: Result<(seq<Node>, string, seq<Token>), string>)
    ensures r.Ok? ==> |r.value.2| < |tokens|
    decreases |tokens|, 0
  {
    if tokens == [] then Err(NeverClosedKey)
    else
      var t := tokens[0];
      if IsEndTag(t) then Ok(([], t.markup, tokens[1..]))
      else if IsSetTag(t) then
        match ParseSet(t.markup, tokens[1..])
        case Err(e) => Err(e)
        case Ok((n, after)) =>
          match ParseBody(after)
          case Err(e) => Err(e)
          case Ok((body, endMarkup, rest)) => Ok(([Nested(t.markup, n)] + body, endMarkup, rest))
      else
        match ParseBody(tokens[1..])
        case Err(e) => Err(e)
        case Ok((body, endMarkup, rest)) => Ok(([Raw(t)] + body, endMarkup, rest))
  }

  /** The tokens a parsed set tag took after its own opening tag. */
  function SetNodeTokens(n: SetNode): seq<Token>
    decreases n
  {
    match n
    case InlineSet(_, _) => []
    case BlockSet(_, body, endMarkup) => NodesTokens(body) + [TagToken(EndTagName, endMarkup)]
  }

  /** The tokens a parsed body was made from. */
  function NodesTokens(nodes: seq<Node>): seq<Token>
    decreases nodes
  {
    if nodes == [] then [] else NodeTokens(nodes[0]) + NodesTokens(nodes[1..])
  }

  function NodeTokens(x: Node): seq<Token>
    decreases x
  {
    match x
    case Raw(t) => [t]
    case Nested(m, s) => [TagToken(SetTagName, m)] + SetNodeTokens(s)
  }

  /** A set node as parsing its markup produces it: the form the markup selects, bodies well formed. */
  predicate WellFormedSet(markup: string, n: SetNode)
    decreases n, 1
  {
    WellFormedForm(ParseSetMarkup(markup), n)
  }

  predicate WellFormedForm(c: SetMarkup, n: SetNode)
    decreases n, 0
  {
    match c
    case Inline(to, from) => n == InlineSet(to, from)
    case Block(to) => n.BlockSet? && n.to == to && WellFormedNodes(n.body)
    case SyntaxErr(_) => false
  }

  /** A body as parsing produces it: kept tokens are neither set nor endset tags. */
  predicate WellFormedNodes(nodes: seq<Node>)
    decreases nodes
  {
    nodes == [] || (WellFormedNode(nodes[0]) && WellFormedNodes(nodes[1..]))
  }

  predicate WellFormedNode(x: Node)
    decreases x
  {
    match x
    case Raw(t) => !IsEndTag(t) && !IsSetTag(t)
    case Nested(m, s) => WellFormedSet(m, s)
  }

  lemma NodesCons(x: Node, xs: seq<Node>)
    ensures NodesTokens([x] + xs) == NodeTokens(x) + NodesTokens(xs)
    ensures WellFormedNodes([x] + xs) == (WellFormedNode(x) && WellFormedNodes(xs))
  {
    assert ([x] + xs)[0] == x && ([x] + xs)[1..] == xs;
  }

  /**
   * Parsing loses no token: what a set tag took, put back in front of the
   * tokens left over, is the token stream it was given, and the node is
   * well formed.
   */
  lemma ParseSetConsumes(markup: string, tokens: seq<Token>)
    requires ParseSet(markup, tokens).Ok?
    ensures var (n, rest) := ParseSet(markup, tokens).value;
      tokens == SetNodeTokens(n) + rest && WellFormedSet(markup, n)
  {
    ParseFormConsumes(ParseSetMarkup(markup), tokens);
  }

  lemma {:induction false} ParseFormConsumes(c: SetMarkup, tokens: seq<Token>)
    requires ParseForm(c, tokens).Ok?
    ensures var (n, rest) := ParseForm(c, tokens).value;
      tokens == SetNodeTokens(n) + rest && WellFormedForm(c, n)
    decreases |tokens|, 2
  {
    if c.Block? {
      ParseBodyConsumes(tokens);
    }
  }

  /** A body that starts with a kept token. */
  lemma BodyOfRaw(tokens: seq<Token>)
    requires tokens != [] && !IsEndTag(tokens[0]) && !IsSetTag(tokens[0])
    ensures ParseBody(tokens) == match ParseBody(tokens[1..])
      case Err(e) => Err(e)
      case Ok((body, endMarkup, rest)) => Ok(([Raw(tokens[0])] + body, endMarkup, rest))
  {
  }

  /** A body that starts with a nested set tag. */
  lemma BodyOfNested(tokens: seq<Token>)
    requires tokens != [] && IsSetTag(tokens[0])
    ensures var t := tokens[0];
      ParseBody(tokens) == match ParseForm(ParseSetMarkup(t.markup), tokens[1..])
      case Err(e) => Err(e)
      case Ok((n, after)) =>
        match ParseBody(after)
        case Err(e) => Err(e)
        case Ok((body, endMarkup, rest)) => Ok(([Nested(t.markup, n)] + body, endMarkup, rest))
  {
  }

  /** The body and the closing tag, put back in front of the tokens left over, are the tokens given. */
  lemma {:induction false} ParseBodyConsumes(tokens: seq<Token>)
    requires ParseBody(tokens).Ok?
    ensures var (body, endMarkup, rest) := ParseBody(tokens).value;
      tokens == NodesTokens(body) + [TagToken(EndTagName, endMarkup)] + rest && WellFormedNodes(body)
    decreases |tokens|, 1
  {
    if IsEndTag(tokens[0]) {
      assert ParseBody(tokens) == Ok(([], tokens[0].markup, tokens[1..]));
    } else if IsSetTag(tokens[0]) {
      ConsumesNested(tokens);
    } else {
      ConsumesRaw(tokens);
    }
  }

  lemma {:induction false} ConsumesRaw(tokens: seq<Token>)
    requires tokens != [] && !IsEndTag(tokens[0]) && !IsSetTag(tokens[0]) && ParseBody(tokens).Ok?
    ensures var (body, endMarkup, rest) := ParseBody(tokens).value;
      tokens == NodesTokens(body) + [TagToken(EndTagName, endMarkup)] + rest && WellFormedNodes(body)
    decreases |tokens|, 0
  {
    var t := tokens[0];
    BodyOfRaw(tokens);
    ParseBodyConsumes(tokens[1..]);
    var (body, e, rest) := ParseBody(tokens[1..]).value;
    NodesCons(Raw(t), body);
  }

  lemma {:induction false} ConsumesNested(tokens: seq<Token>)
    requires tokens != [] && IsSetTag(tokens[0]) && ParseBody(tokens).Ok?
    ensures var (body, endMarkup, rest) := ParseBody(tokens).value;
      tokens == NodesTokens(body) + [TagToken(EndTagName, endMarkup)] + rest && WellFormedNodes(body)
    decreases |tokens|, 0
  {
    var t := tokens[0];
    BodyOfNested(tokens);
    var c := ParseSetMarkup(t.markup);
    var (n, after) := ParseForm(c, tokens[1..]).value;
    ParseFormConsumes(c, tokens[1..]);
    ParseBodyConsumes(after);
    var (body, e, rest) := ParseBody(after).value;
    NestedTokens(tokens, n, after, body, e, rest);
    NestedWellFormed(t.markup, n, body);
  }

  lemma NestedTokens(tokens: seq<Token>, n: SetNode, after: seq<Token>, body: seq<Node>, e: string, rest: seq<Token>)
    requires tokens != [] && tokens[0].TagToken? && tokens[0].name == SetTagName
    requires tokens[1..] == SetNodeTokens(n) + after
    requires after == NodesTokens(body) + [TagToken(EndTagName, e)] + rest
    ensures tokens == NodesTokens([Nested(tokens[0].markup, n)] + body) + [TagToken(EndTagName, e)] + rest
  {
    var x := Nested(tokens[0].markup, n);
    NodesCons(x, body);
    var h := NodeTokens(x);
    assert h == [tokens[0]] + SetNodeTokens(n);
    Regroup(tokens, SetNodeTokens(n), NodesTokens(body), [TagToken(EndTagName, e)], rest);
  }

  /** Sequence bookkeeping for a token in front of four pieces. */
  lemma Regroup(tokens: seq<Token>, a: seq<Token>, b: seq<Token>, c: seq<Token>, d: seq<Token>)
    requires tokens != [] && tokens[1..] == a + (b + c + d)
    ensures tokens == ([tokens[0]] + a) + b + c + d
  {
    assert tokens == [tokens[0]] + tokens[1..];
  }

  lemma NestedWellFormed(m: string, n: SetNode, body: seq<Node>)
    requires WellFormedSet(m, n) && WellFormedNodes(body)
    ensures WellFormedNodes([Nested(m, n)] + body)
  {
    NodesCons(Nested(m, n), body);
  }

  /** A well-formed set node, written back as tokens, parses to itself whatever follows. */
  lemma ParseSetOfTokens(markup: string, n: SetNode, rest: seq<Token>)
    requires WellFormedSet(markup, n)
    ensures ParseSet(markup, SetNodeTokens(n) + rest) == Ok((n, rest))
  {
    ParseFormOfTokens(ParseSetMarkup(markup), n, rest);
  }

  lemma {:induction false} ParseFormOfTokens(c: SetMarkup, n: SetNode, rest: seq<Token>)
    requires WellFormedForm(c, n)
    ensures ParseForm(c, SetNodeTokens(n) + rest) == Ok((n, rest))
    decreases n, 2
  {
    if n.InlineSet? {
      assert SetNodeTokens(n) + rest == rest;
    } else {
      ParseBodyOfTokens(n.body, n.endMarkup, rest);
      assert SetNodeTokens(n) + rest == NodesTokens(n.body) + [TagToken(EndTagName, n.endMarkup)] + rest;
    }
  }

  /** A well-formed body, written back as tokens and closed, parses to itself. */
  lemma {:induction false} ParseBodyOfTokens(body: seq<Node>, endMarkup: string, rest: seq<Token>)
    requires WellFormedNodes(body)
    ensures ParseBody(NodesTokens(body) + [TagToken(EndTagName, endMarkup)] + rest) == Ok((body, endMarkup, rest))
    decreases body, 1
  {
    var tokens := NodesTokens(body) + [TagToken(EndTagName, endMarkup)] + rest;
    if body == [] {
      assert tokens[0] == TagToken(EndTagName, endMarkup) && tokens[1..] == rest;
    } else {
      match body[0]
      case Raw(t) => RawOfTokens(body, endMarkup, rest);
      case Nested(m, s) => NestedOfTokens(body, endMarkup, rest);
    }
  }

  lemma {:induction false} RawOfTokens(body: seq<Node>, endMarkup: string, rest: seq<Token>)
    requires body != [] && body[0].Raw? && WellFormedNodes(body)
    ensures ParseBody(NodesTokens(body) + [TagToken(EndTagName, endMarkup)] + rest) == Ok((body, endMarkup, rest))
    decreases body, 0
  {
    var tokens := NodesTokens(body) + [TagToken(EndTagName, endMarkup)] + rest;
    var tail := NodesTokens(body[1..]) + [TagToken(EndTagName, endMarkup)] + rest;
    HeadTokens(body, endMarkup, rest);
    ParseBodyOfTokens(body[1..], endMarkup, rest);
    BodyOfRaw(tokens);
    assert [body[0]] + body[1..] == body;
  }

  lemma {:induction false} NestedOfTokens(body: seq<Node>, endMarkup: string, rest: seq<Token>)
    requires body != [] && body[0].Nested? && WellFormedNodes(body)
    ensures ParseBody(NodesTokens(body) + [TagToken(EndTagName, endMarkup)] + rest) == Ok((body, endMarkup, rest))
    decreases body, 0
  {
    var tokens := NodesTokens(body) + [TagToken(EndTagName, endMarkup)] + rest;
    var tail := NodesTokens(body[1..]) + [TagToken(EndTagName, endMarkup)] + rest;
    var Nested(m, s) := body[0];
    HeadTokens(body, endMarkup, rest);
    ParseFormOfTokens(ParseSetMarkup(m), s, tail);
    ParseBodyOfTokens(body[1..], endMarkup, rest);
    BodyOfNested(tokens);
    assert [body[0]] + body[1..] == body;
  }

  /** Where the tokens of a body's first node end and the rest begin. */
  lemma HeadTokens(body: seq<Node>, endMarkup: string, rest: seq<Token>)
    requires body != [] && WellFormedNodes(body)
    ensures var tokens := NodesTokens(body) + [TagToken(EndTagName, endMarkup)] + rest;
      var tail := NodesTokens(body[1..]) + [TagToken(EndTagName, endMarkup)] + rest;
      && WellFormedNodes(body[1..])
      && match body[0]
        case Raw(t) => tokens[0] == t && tokens[1..] == tail && !IsEndTag(t) && !IsSetTag(t)
        case Nested(m, s) =>
          tokens[0] == TagToken(SetTagName, m) && tokens[1..] == SetNodeTokens(s) + tail && WellFormedSet(m, s)
  {
    var tail := NodesTokens(body[1..]) + [TagToken(EndTagName, endMarkup)] + rest;
    var tokens := NodesTokens(body) + [TagToken(EndTagName, endMarkup)] + rest;
    assert tokens == NodeTokens(body[0]) + tail;
    HeadSplit(NodeTokens(body[0]), tail);
  }

  lemma HeadSplit(h: seq<Token>, tail: seq<Token>)
    requires h != []
    ensures (h + tail)[0] == h[0] && (h + tail)[1..] == h[1..] + tail
  {
  }

  // ---------------------------------------------------------------------
  // What parsing a set tag does with the tokens after it
  // ---------------------------------------------------------------------

  /**
   * The inline form takes no token, so it needs no `endset`; markup with
   * no name character fails with the set tag's syntax error; the block
   * form takes at least its closing tag.
   */
  lemma ParseSetForms(markup: string, tokens: seq<Token>)
    ensures var c := ParseSetMarkup(markup);
      && (c.Inline? ==> ParseSet(markup, tokens) == Ok((InlineSet(c.to, c.from), tokens)))
      && ((forall i | 0 <= i < |markup| :: !IsNameChar(markup[i])) ==> ParseSet(markup, tokens) == Err(SyntaxErrorKey))
      && (c.Block? && ParseSet(markup, tokens).Ok? ==>
            var (n, rest) := ParseSet(markup, tokens).value;
            n.BlockSet? && n.to == c.to && |rest| < |tokens|)
  {
    SyntaxErrIff(markup);
  }

  /** The body parse succeeds only if some token is an `endset`. */
  lemma BodyNeedsEnd(tokens: seq<Token>)
    requires ParseBody(tokens).Ok?
    ensures exists i | 0 <= i < |tokens| :: IsEndTag(tokens[i])
  {
    ParseBodyConsumes(tokens);
    var (body, e, rest) := ParseBody(tokens).value;
    var i := |NodesTokens(body)|;
    assert tokens[i] == TagToken(EndTagName, e);
  }

  /** Without any `endset` after it, the block form cannot be parsed. */
  lemma BlockNeverClosed(markup: string, tokens: seq<Token>)
    requires ParseSetMarkup(markup).Block?
    requires forall i | 0 <= i < |tokens| :: !IsEndTag(tokens[i])
    ensures ParseSet(markup, tokens).Err?
  {
    if ParseBody(tokens).Ok? {
      BodyNeedsEnd(tokens);
    }
  }

  /** With neither `set` nor `endset` tags ahead, the error is the never-closed one. */
  lemma {:induction false} FlatBodyNeverClosed(tokens: seq<Token>)
    requires forall i | 0 <= i < |tokens| :: !IsEndTag(tokens[i]) && !IsSetTag(tokens[i])
    ensures ParseBody(tokens) == Err(NeverClosedKey)
    decreases |tokens|
  {
    if tokens != [] {
      BodyOfRaw(tokens);
      FlatBodyNeverClosed(tokens[1..]);
    }
  }

  /** Tokens kept as they are, one node each. */
  function Raws(ts: seq<Token>): (r: seq<Node>)
    ensures |r| == |ts| && forall k | 0 <= k < |ts| :: r[k] == Raw(ts[k])
  {
    seq(|ts|, k requires 0 <= k < |ts| => Raw(ts[k]))
  }

  /** A body with no nested set tag runs up to the first `endset`, which it consumes. */
  lemma {:induction false} FlatBody(tokens: seq<Token>, i: nat)
    requires i < |tokens| && IsEndTag(tokens[i])
    requires forall k | 0 <= k < i :: !IsEndTag(tokens[k]) && !IsSetTag(tokens[k])
    ensures ParseBody(tokens) == Ok((Raws(tokens[..i]), tokens[i].markup, tokens[i + 1..]))
    decreases i
  {
    if i == 0 {
      assert Raws(tokens[..0]) == [];
    } else {
      BodyOfRaw(tokens);
      FlatBody(tokens[1..], i - 1);
      assert tokens[1..][i - 1] == tokens[i] && tokens[1..][i - 1 + 1..] == tokens[i + 1..];
      assert [Raw(tokens[0])] + Raws(tokens[1..][..i - 1]) == Raws(tokens[..i]);
    }
  }

  /** Every failure is one of the set tag's two errors. */
  lemma {:induction false} FormErrors(c: SetMarkup, tokens: seq<Token>)
    requires c.SyntaxErr? ==> c.key == SyntaxErrorKey
    requires ParseForm(c, tokens).Err?
    ensures ParseForm(c, tokens).error in {SyntaxErrorKey, NeverClosedKey}
    decreases |tokens|, 1
  {
    if c.Block? {
      BodyErrors(tokens);
    }
  }

  lemma {:induction false} BodyErrors(tokens: seq<Token>)
    requires ParseBody(tokens).Err?
    ensures ParseBody(tokens).error in {SyntaxErrorKey, NeverClosedKey}
    decreases |tokens|, 0
  {
    if tokens != [] && !IsEndTag(tokens[0]) {
      if IsSetTag(tokens[0]) {
        BodyOfNested(tokens);
        var c := ParseSetMarkup(tokens[0].markup);
        SyntaxErrIff(tokens[0].markup);
        if ParseForm(c, tokens[1..]).Err? {
          FormErrors(c, tokens[1..]);
        } else {
          BodyErrors(ParseForm(c, tokens[1..]).value.1);
        }
      } else {
        BodyOfRaw(tokens);
        BodyErrors(tokens[1..]);
      }
    }
  }

  lemma ParseSetErrors(markup: string, tokens: seq<Token>)
    requires ParseSet(markup, tokens).Err?
    ensures ParseSet(markup, tokens).error in {SyntaxErrorKey, NeverClosedKey}
  {
    SyntaxErrIff(markup);
    FormErrors(ParseSetMarkup(markup), tokens);
  }

  /**
   * `{% set foo not values %}.`: the block form, and then no `endset` before the end.
   * The parameters only name the literals, which keeps the proof cheap.
   */
  lemma MissingEqualsNeverClosed(m: string, tokens: seq<Token>)
    requires m == "foo not values " && tokens == [Text(".")]
    ensures ParseSet(m, tokens) == Err(NeverClosedKey)
  {
    MissingEqualsBlock(m, "foo", " not values ");
    FlatBodyNeverClosed(tokens);
  }

  /**
   * `{% set 'var' %}test string{% endset %}{{var}}`: the body is the text, the variable is left over.
   * The parameters only name the literals, which keeps the proof cheap.
   */
  lemma QuotedBlockBody(m: string, body: Token, close: Token, after: Token)
    requires m == "'var' " && body == Text("test string")
    requires close == TagToken(EndTagName, "") && after == VarToken("var")
    ensures ParseSet(m, [body, close, after]) == Ok((BlockSet("var", [Raw(body)], ""), [after]))
  {
    QuotedBlock(m, "'", "var", "' ");
    var tokens := [body, close, after];
    FlatBody(tokens, 1);
    assert Raws(tokens[..1]) == [Raw(body)];
  }

  // ---------------------------------------------------------------------
  // Rendering
  // ---------------------------------------------------------------------

  /**
   * `blank?`: a set node reports itself blank in both forms, whatever its
   * render returns.
   */
  function Blank(n: SetNode): (b: bool)
    ensures b
  {
    true
  }

  /**
   * Render a parsed set tag: bind its target in the base frame to the
   * rendered body text (block form) or to the expression's value (inline
   * form), charge that value to the assign score, and output nothing.
   * `rendered` and `evaluated` are what rendering the body and evaluating
   * the expression produce; both are outside this model. In the block form
   * `ctx` is the context as rendering the body left it, so writes made by
   * `set` tags inside the body have already happened.
   */
  method RenderSet(ctx: Context, node: SetNode, rendered: string, evaluated: Value) returns (out: string)
    requires ctx.Valid()
    modifies ctx
    ensures ctx.Valid() && out == ""
    ensures var v := if node.BlockSet? then Str(rendered) else evaluated;
      && ctx.scopes == AssignLast(old(ctx.scopes), node.to, v)
      && ctx.assignScore == old(ctx.assignScore) + ctx.cost(v)
  {
    var v := if node.BlockSet? then Str(rendered) else evaluated;
    ctx.AssignBase(node.to, v);
    ctx.IncrementUsedResources(v);
    out := "";
  }

  /** `n` as the one decimal digit `{{number}}` renders to. */
  function DigitText(n: nat): (r: string)
    requires n <= 9
    ensures |r| == 1 && '0' <= r[0] <= '9' && r[0] as int - '0' as int == n
  {
    [('0' as int + n) as char]
  }

  /** Binding in a context of one frame under one pushed frame. */
  lemma AssignUnderOnePush(inner: Frame, base: Frame, name: string, v: Value)
    ensures AssignLast([inner] + [base], name, v) == [inner, base[name := v]]
  {
    AssignLastUnderPush(inner, [base], name, v);
    assert AssignLast([base], name, v) == [base[name := v]];
  }

  /** Both names bound to `v`, in a frame of their own. */
  function PairFrame(a: string, b: string, v: Value): Frame {
    map[a := v, b := v]
  }

  lemma PairFrameUpdate(a: string, b: string, v: Value, d: Value)
    ensures PairFrame(a, b, v)[a := d][b := d] == PairFrame(a, b, d)
  {
  }

  /**
   * The body `{% set a %}...{% endset %}{% set b = a %}` rendered once in a
   * frame pushed over a context of one frame, the pushed frame standing for
   * whatever scope an enclosing tag opens: both names end up bound in the
   * base frame to the block's text, and the pushed frame is gone again.
   */
  method SetThenCopy(ctx: Context, a: string, b: string, text: string)
    requires ctx.Valid() && |ctx.scopes| == 1
    modifies ctx
    ensures ctx.Valid()
    ensures ctx.scopes == [old(ctx.scopes[0])[a := Str(text)][b := Str(text)]]
  {
    var base := ctx.scopes[0];
    var d := Str(text);
    ctx.Push();
    var _ := RenderSet(ctx, BlockSet(a, [Raw(VarToken("number"))], ""), text, Nil);
    AssignUnderOnePush(map[], base, a, d);
    var found := ctx.Find(a);
    assert found == Some(d) by {
      FindInInnermost(ctx.scopes, a, 1);
    }
    var _ := RenderSet(ctx, InlineSet(b, a), "", found.value);
    AssignUnderOnePush(map[], base[a := d], b, d);
    var _ := ctx.Pop();
  }

  /**
   * `{% set first = '' %}{% set second = '' %}{% for number in (1..3) %}
   * {% set first %}{{number}}{% endset %}{% set second = first %}{% endfor %}`:
   * after the loop both names hold `3`, because each write goes to the base
   * frame. The `for` tag is not part of this model: each round is taken to
   * run the body in one frame pushed for that round and popped after it.
   * The parameters only name the literals, which keeps the proof cheap.
   */
  method AssigningFromSet(a: string, b: string, cost: Value -> nat) returns (first: Option<Value>, second: Option<Value>)
    requires a == "first" && b == "second"
    ensures first == Some(Str(DigitText(3))) && second == Some(Str(DigitText(3)))
  {
    assert a != b by {
      assert a[0] != b[0];
    }
    var ctx := new Context(map[], cost);
    var _ := RenderSet(ctx, InlineSet(a, "''"), "", Str(""));
    var _ := RenderSet(ctx, InlineSet(b, "''"), "", Str(""));
    assert ctx.scopes == [PairFrame(a, b, Str(""))];
    var number := 1;
    SetThenCopy(ctx, a, b, DigitText(number));
    PairFrameUpdate(a, b, Str(""), Str(DigitText(number)));
    while number < 3
      invariant 1 <= number <= 3
      invariant ctx.Valid()
      invariant ctx.scopes == [PairFrame(a, b, Str(DigitText(number)))]
    {
      PairFrameUpdate(a, b, Str(DigitText(number)), Str(DigitText(number + 1)));
      number := number + 1;
      SetThenCopy(ctx, a, b, DigitText(number));
    }
    first := ctx.Find(a);
    second := ctx.Find(b);
    FindInInnermost(ctx.scopes, a, 0);
    FindInInnermost(ctx.scopes, b, 0);
  }
}
