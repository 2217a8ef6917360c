/**
 * The template splitter of lib/twig.rb: `source.split(TemplateParser)` with
 *   TemplateParser        = /(PartialTemplateParser|AnyStartingTag)/m
 *   PartialTemplateParser = /\{\%.*?\%\}|\{\{.*?\}\}?/m
 *   AnyStartingTag        = /\{\{|\{\%/
 * The group around the whole alternation makes Ruby's split keep every
 * match, so the pieces are literal text and fragments in turn; Ruby drops
 * the trailing empty piece and the tokenizer drops a leading one.
 */
module TemplateSplit {

  /** AnyStartingTag at the start of `t`: `{{` or `{%`. */
  predicate AtFragmentStart(t: string) {
    |t| >= 2 && t[0] == '{' && (t[1] == '{' || t[1] == '%')
  }

  /** `t` holds neither `{{` nor `{%` anywhere. */
  predicate NoFragmentStart(t: string) {
    forall i {:trigger AtFragmentStart(t[i..])} | 0 <= i < |t| :: !AtFragmentStart(t[i..])
  }

  /** TagEnd, `%}`, at position i of `t`. */
  predicate IsTagEndAt(t: string, i: int) {
    0 <= i && i + 1 < |t| && t[i] == '%' && t[i + 1] == '}'
  }

  /** First position where a fragment can start (`{{` or `{%`), or |t|. */
  function FragmentStartIndex(t: string): (k: nat)
    ensures k <= |t|
    ensures k < |t| ==> AtFragmentStart(t[k..])
    decreases |t|
  {
    if |t| < 2 then |t|
    else if AtFragmentStart(t) then 0
    else
      var k := FragmentStartIndex(t[1..]);
      assert t[1 + k..] == t[1..][k..];
      1 + k
  }

  /** No fragment starts before FragmentStartIndex: it is the leftmost match position. */
  lemma {:induction false} FragmentStartIndexLeftmost(t: string)
    ensures forall i {:trigger AtFragmentStart(t[i..])} | 0 <= i < FragmentStartIndex(t) :: !AtFragmentStart(t[i..])
    decreases |t|
  {
    if |t| >= 2 && !AtFragmentStart(t) {
      FragmentStartIndexLeftmost(t[1..]);
      forall i | 1 <= i < FragmentStartIndex(t)
        ensures !AtFragmentStart(t[i..])
      {
        assert t[i..] == t[1..][i - 1..];
      }
    }
  }

  /** First `%}` in `t`, or |t| when there is none. */
  function TagEndIndex(t: string): (k: nat)
    ensures k <= |t|
    ensures k < |t| ==> IsTagEndAt(t, k)
    ensures forall i | 0 <= i < k :: !IsTagEndAt(t, i)
    decreases |t|
  {
    if |t| < 2 then |t|
    else if IsTagEndAt(t, 0) then 0
    else
      var k := TagEndIndex(t[1..]);
      assert forall i | 1 <= i < 1 + k :: IsTagEndAt(t, i) == IsTagEndAt(t[1..], i - 1);
      1 + k
  }

  /** First `}` in `t`, or |t|. */
  function CloseBraceIndex(t: string): (k: nat)
    ensures k <= |t|
    ensures k < |t| ==> t[k] == '}'
    ensures forall i | 0 <= i < k :: t[i] != '}'
    decreases |t|
  {
    if t == [] then 0
    else if t[0] == '}' then 0
    else 1 + CloseBraceIndex(t[1..])
  }

  /**
   * Length of the match that starts `t`. A `{%` runs to the first `%}`
   * after it, a `{{` to the first `}` after it (taking a second `}` when one
   * follows); with no closing delimiter the bare opening is the match.
   */
  function FragmentLen(t: string): (n: nat)
    requires AtFragmentStart(t)
    ensures 2 <= n <= |t|
  {
    if t[1] == '%' then
      var e := TagEndIndex(t[2..]);
      if e < |t| - 2 then e + 4 else 2
    else
      var e := CloseBraceIndex(t[2..]);
      if e < |t| - 2 then
        (if e + 3 < |t| && t[e + 3] == '}' then e + 4 else e + 3)
      else 2
  }

  /** A closed tag fragment: `{%`, then text without `%}`, then the first `%}`. */
  predicate IsTagFragment(p: string) {
    && |p| >= 4
    && p[0] == '{' && p[1] == '%'
    && IsTagEndAt(p, |p| - 2)
    && forall i | 2 <= i < |p| - 2 :: !IsTagEndAt(p, i)
  }

  /** A closed variable fragment: `{{`, text without `}`, then `}` or `}}`. */
  predicate IsVariableFragment(p: string) {
    && |p| >= 3
    && p[0] == '{' && p[1] == '{'
    && p[|p| - 1] == '}'
    && forall i | 2 <= i < |p| - 2 :: p[i] != '}'
  }

  /** What one match of TemplateParser looks like, given what follows it in the source. */
  predicate IsFragmentMatch(p: string, after: string) {
    || (IsTagFragment(p))
    || (IsVariableFragment(p) && (p[|p| - 2] == '}' || after == [] || after[0] != '}'))
    || (p == "{%" && forall i | 0 <= i < |after| :: !IsTagEndAt(after, i))
    || (p == "{{" && forall i | 0 <= i < |after| :: after[i] != '}')
  }

  lemma FragmentLenShape(t: string)
    requires AtFragmentStart(t)
    ensures IsFragmentMatch(t[..FragmentLen(t)], t[FragmentLen(t)..])
  {
    var n := FragmentLen(t);
    var p := t[..n];
    if t[1] == '%' {
      var e := TagEndIndex(t[2..]);
      if e < |t| - 2 {
        assert forall i | 2 <= i < n - 2 :: IsTagEndAt(p, i) == IsTagEndAt(t[2..], i - 2);
        assert IsTagEndAt(t[2..], e);
        assert IsTagFragment(p);
      } else {
        assert forall i | 0 <= i < |t[2..]| :: !IsTagEndAt(t[2..], i);
      }
    } else {
      var e := CloseBraceIndex(t[2..]);
      if e < |t| - 2 {
        assert forall i | 2 <= i < e + 2 :: p[i] == t[2..][i - 2];
        assert t[2..][e] == '}';
        assert IsVariableFragment(p);
      } else {
        assert forall i | 0 <= i < |t[2..]| :: t[2..][i] != '}';
      }
    }
  }

  /**
   * Where the first match of TemplateParser cuts `t`: the literal text
   * before it, the match itself and what follows; NoCut when `t` holds no
   * `{{` and no `{%`.
   */
  datatype Cut = NoCut | CutAt(lit: string, frag: string, rest: string)

  function FirstCut(t: string): (c: Cut)
    ensures c.CutAt? ==> c.lit + c.frag + c.rest == t && |c.frag| >= 2
  {
    var k := FragmentStartIndex(t);
    if k == |t| then NoCut
    else
      var n := FragmentLen(t[k..]);
      assert t[..k] + t[k..k + n] + t[k + n..] == t;
      CutAt(t[..k], t[k..k + n], t[k + n..])
  }

  /**
   * The raw result of Ruby's split: literal, fragment, literal, ...,
   * literal. It begins and ends with a literal, possibly empty.
   */
  function Pieces(t: string): (r: seq<string>)
    ensures |r| > 0
    decreases |t|
  {
    match FirstCut(t)
    case NoCut => [t]
    case CutAt(lit, frag, rest) => [lit, frag] + Pieces(rest)
  }

  /** `s.split(TemplateParser)`, less the leading empty piece the tokenizer removes. */
  function Split(source: string): (r: seq<string>)
  {
    if source == [] then [] else TrimEnds(Pieces(source))
  }

  /** Ruby's split drops an empty last piece; the tokenizer then drops an empty first one. */
  function TrimEnds(raw: seq<string>): (r: seq<string>)
  {
    var noTrailing := if |raw| > 0 && raw[|raw| - 1] == [] then raw[..|raw| - 1] else raw;
    if |noTrailing| > 0 && noTrailing[0] == [] then noTrailing[1..] else noTrailing
  }

  /** Glue pieces back together. */
  function Concat(ps: seq<string>): (t: string)
    decreases |ps|
  {
    if ps == [] then [] else ps[0] + Concat(ps[1..])
  }

  lemma {:induction false} ConcatAppend(a: seq<string>, b: seq<string>)
    ensures Concat(a + b) == Concat(a) + Concat(b)
    decreases |a|
  {
    if a == [] {
      assert a + b == b;
    } else {
      assert (a + b)[1..] == a[1..] + b;
      ConcatAppend(a[1..], b);
    }
  }

  lemma ConcatPair(a: string, b: string)
    ensures Concat([a, b]) == a + b
  {
    assert [a, b][1..] == [b];
    assert [b][1..] == [];
    assert Concat([b]) == b + Concat([]);
  }

  lemma ConcatCons(a: string, b: string, tail: seq<string>)
    ensures Concat([a, b] + tail) == a + b + Concat(tail)
  {
    ConcatAppend([a, b], tail);
    ConcatPair(a, b);
  }

  /** Splitting loses no characters: the raw pieces reassemble the source. */
  lemma {:induction false} PiecesConcat(t: string)
    ensures Concat(Pieces(t)) == t
    decreases |t|
  {
    match FirstCut(t)
    case NoCut =>
      assert Concat([t]) == t + Concat([]);
    case CutAt(lit, frag, rest) =>
      PiecesConcat(rest);
      ConcatCons(lit, frag, Pieces(rest));
  }

  /** A literal piece, as the parser sees it: it does not open a fragment. */
  predicate IsLiteral(p: string) {
    !AtFragmentStart(p)
  }

  /** Literal pieces and fragments take turns. */
  predicate Alternates(r: seq<string>) {
    forall k | 0 <= k < |r| - 1 :: IsLiteral(r[k]) != IsLiteral(r[k + 1])
  }

  /** No literal piece holds a `{{` or a `{%`. */
  predicate LiteralsClean(r: seq<string>) {
    forall k | 0 <= k < |r| :: IsLiteral(r[k]) ==> NoFragmentStart(r[k])
  }

  /** Every fragment is a match of TemplateParser in its context. */
  predicate FragmentsMatch(r: seq<string>) {
    forall k | 0 <= k < |r| :: !IsLiteral(r[k]) ==> IsFragmentMatch(r[k], Concat(r[k + 1..]))
  }

  predicate PieceProps(r: seq<string>) {
    Alternates(r) && LiteralsClean(r) && FragmentsMatch(r)
  }

  /** A prefix of the text before the first fragment start opens no fragment. */
  lemma LiteralPrefix(t: string, k: nat)
    requires k <= |t|
    requires forall i {:trigger AtFragmentStart(t[i..])} | 0 <= i < k :: !AtFragmentStart(t[i..])
    ensures NoFragmentStart(t[..k])
  {
    forall i | 0 <= i < k
      ensures !AtFragmentStart(t[..k][i..])
    {
      assert !AtFragmentStart(t[i..]);
      if |t[..k][i..]| >= 2 {
        assert t[..k][i..][0] == t[i..][0] && t[..k][i..][1] == t[i..][1];
      }
    }
  }

  /** Putting a literal and a fragment in front of well-formed pieces keeps them well formed. */
  lemma ConsPieces(lit: string, frag: string, tail: seq<string>)
    requires NoFragmentStart(lit) && AtFragmentStart(frag)
    requires IsFragmentMatch(frag, Concat(tail))
    requires tail != [] && IsLiteral(tail[0]) && PieceProps(tail)
    ensures PieceProps([lit, frag] + tail)
  {
    var r := [lit, frag] + tail;
    assert lit != [] ==> lit[0..] == lit;
    assert IsLiteral(lit);
    assert r[2..] == tail;
    forall k | 2 <= k < |r|
      ensures r[k] == tail[k - 2] && r[k + 1..] == tail[k - 1..]
    {
    }
  }

  /** Without a cut, the text opens no fragment anywhere. */
  lemma NoCutIsLiteral(t: string)
    requires FirstCut(t).NoCut?
    ensures NoFragmentStart(t)
  {
    FragmentStartIndexLeftmost(t);
    LiteralPrefix(t, |t|);
    assert t[..|t|] == t;
  }

  /** The literal before the first cut opens no fragment. */
  lemma CutLiteralClean(t: string)
    requires FirstCut(t).CutAt?
    ensures NoFragmentStart(FirstCut(t).lit)
  {
    FragmentStartIndexLeftmost(t);
    LiteralPrefix(t, FragmentStartIndex(t));
  }

  /** The first fragment the split cuts opens with `{{` or `{%`. */
  lemma CutOpens(t: string)
    requires FirstCut(t).CutAt?
    ensures AtFragmentStart(FirstCut(t).frag)
  {
    var k := FragmentStartIndex(t);
    var u := t[k..];
    var n := FragmentLen(u);
    assert u[..n] == t[k..k + n];
    assert u[..n][0] == u[0] && u[..n][1] == u[1];
  }

  /** The first fragment the split cuts is a match of TemplateParser. */
  lemma CutMatches(t: string)
    requires FirstCut(t).CutAt?
    ensures IsFragmentMatch(FirstCut(t).frag, FirstCut(t).rest)
  {
    var k := FragmentStartIndex(t);
    var u := t[k..];
    var n := FragmentLen(u);
    FragmentLenShape(u);
    assert u[..n] == t[k..k + n];
    assert u[n..] == t[k + n..];
  }

  /** The raw pieces are well formed and begin and end with a literal. */
  lemma {:induction false} PiecesWellFormed(t: string)
    ensures PieceProps(Pieces(t))
    ensures IsLiteral(Pieces(t)[0]) && IsLiteral(Pieces(t)[|Pieces(t)| - 1])
    decreases |t|
  {
    match FirstCut(t)
    case NoCut =>
      NoCutIsLiteral(t);
      assert t != [] ==> t[0..] == t;
    case CutAt(lit, frag, rest) =>
      PiecesWellFormed(rest);
      PiecesConcat(rest);
      CutLiteralClean(t);
      CutOpens(t);
      CutMatches(t);
      ConsPieces(lit, frag, Pieces(rest));
  }

  lemma ConcatDropLast(r: seq<string>)
    requires |r| > 0 && r[|r| - 1] == []
    ensures Concat(r[..|r| - 1]) == Concat(r)
  {
    ConcatAppend(r[..|r| - 1], [r[|r| - 1]]);
    assert r[..|r| - 1] + [r[|r| - 1]] == r;
    assert Concat([r[|r| - 1]]) == [] + Concat([]);
  }

  /** Ruby's split loses no characters: the pieces reassemble the source. */
  lemma SplitConcat(source: string)
    ensures Concat(Split(source)) == source
  {
    if source != [] {
      var raw := Pieces(source);
      PiecesConcat(source);
      var noTrailing := if raw[|raw| - 1] == [] then raw[..|raw| - 1] else raw;
      if raw[|raw| - 1] == [] {
        ConcatDropLast(raw);
      }
      if |noTrailing| > 0 && noTrailing[0] == [] {
        assert Concat(noTrailing) == [] + Concat(noTrailing[1..]);
      }
    }
  }

  /** Dropping an empty last piece keeps the pieces well formed. */
  lemma DropLastProps(r: seq<string>)
    requires |r| > 0 && r[|r| - 1] == [] && PieceProps(r)
    ensures PieceProps(r[..|r| - 1])
  {
    var q := r[..|r| - 1];
    forall k | 0 <= k < |q|
      ensures !IsLiteral(q[k]) ==> IsFragmentMatch(q[k], Concat(q[k + 1..]))
    {
      assert q[k + 1..] == r[k + 1..][..|r[k + 1..]| - 1];
      ConcatDropLast(r[k + 1..]);
    }
  }

  /** Dropping the first piece keeps the pieces well formed. */
  lemma DropFirstProps(r: seq<string>)
    requires |r| > 0 && PieceProps(r)
    ensures PieceProps(r[1..])
  {
    forall k | 0 <= k < |r| - 1
      ensures !IsLiteral(r[1..][k]) ==> IsFragmentMatch(r[1..][k], Concat(r[1..][k + 1..]))
    {
      assert r[1..][k + 1..] == r[k + 2..];
    }
  }

  /**
   * The pieces of a split: literal text and fragments take turns, no literal
   * holds a `{{` or a `{%`, every fragment is a match of TemplateParser, and
   * neither the first nor the last piece is empty.
   */
  lemma SplitWellFormed(source: string)
    ensures PieceProps(Split(source))
    ensures |Split(source)| > 0 ==> Split(source)[0] != [] && Split(source)[|Split(source)| - 1] != []
    ensures source != [] <==> |Split(source)| > 0
  {
    if source != [] {
      var raw := Pieces(source);
      PiecesWellFormed(source);
      PiecesConcat(source);
      var noTrailing := if raw[|raw| - 1] == [] then raw[..|raw| - 1] else raw;
      if raw[|raw| - 1] == [] {
        DropLastProps(raw);
        assert |raw| > 1;
        assert !IsLiteral(raw[|raw| - 2]);
      }
      if |noTrailing| > 0 && noTrailing[0] == [] {
        DropFirstProps(noTrailing);
        assert |noTrailing| > 1;
      }
    }
  }

  /** Text without `{{` and `{%` is one literal piece. */
  lemma SplitPlainText(source: string)
    requires source != [] && NoFragmentStart(source)
    ensures Split(source) == [source]
  {
    var k := FragmentStartIndex(source);
    if k < |source| {
      assert false;
    }
  }

  /** Blank text is one literal piece. */
  lemma SplitBlank()
    ensures Split("  ") == ["  "]
  {
    SplitPlainText("  ");
  }

  /** FragmentStartIndex is exactly the leftmost position where `{{` or `{%` starts. */
  lemma FragmentStartIndexIs(t: string, k: nat)
    requires k <= |t| && (k < |t| ==> AtFragmentStart(t[k..]))
    requires forall i {:trigger AtFragmentStart(t[i..])} | 0 <= i < k :: !AtFragmentStart(t[i..])
    ensures FragmentStartIndex(t) == k
  {
    FragmentStartIndexLeftmost(t);
  }

  /** The cut of `t` when its first fragment start is at k and that fragment is n long. */
  lemma FirstCutIs(t: string, k: nat, n: nat)
    requires k < |t| && AtFragmentStart(t[k..]) && n == FragmentLen(t[k..])
    requires forall i {:trigger AtFragmentStart(t[i..])} | 0 <= i < k :: !AtFragmentStart(t[i..])
    ensures FirstCut(t) == CutAt(t[..k], t[k..k + n], t[k + n..])
  {
    FragmentStartIndexIs(t, k);
  }

  /** Glue a literal before the first fragment start: nothing opens inside it or across its end. */
  predicate OpensNothing(a: string) {
    NoFragmentStart(a) && (a == [] || a[|a| - 1] != '{')
  }

  lemma LiteralInFront(a: string, u: string)
    requires OpensNothing(a) && AtFragmentStart(u)
    ensures forall i {:trigger AtFragmentStart((a + u)[i..])} | 0 <= i < |a| :: !AtFragmentStart((a + u)[i..])
    ensures (a + u)[|a|..] == u
  {
    var t := a + u;
    forall i | 0 <= i < |a|
      ensures !AtFragmentStart(t[i..])
    {
      if i < |a| - 1 {
        assert !AtFragmentStart(a[i..]);
        assert t[i..][0] == a[i..][0] && t[i..][1] == a[i..][1];
      } else {
        assert t[i..][0] == a[i];
      }
    }
    assert t[|a|..] == u;
  }

  lemma {:induction false} CloseBraceIndexAfter(x: string, u: string)
    requires forall i | 0 <= i < |x| :: x[i] != '}'
    ensures CloseBraceIndex(x + "}" + u) == |x|
    decreases |x|
  {
    if x != [] {
      assert (x + "}" + u)[1..] == x[1..] + "}" + u;
      CloseBraceIndexAfter(x[1..], u);
    }
  }

  lemma {:induction false} TagEndIndexAfter(x: string, u: string)
    requires forall i | 0 <= i < |x| :: !IsTagEndAt(x + "%}", i)
    ensures TagEndIndex(x + "%}" + u) == |x|
    decreases |x|
  {
    var t := x + "%}" + u;
    if x != [] {
      assert t[1..] == x[1..] + "%}" + u;
      forall i | 0 <= i < |x| - 1
        ensures !IsTagEndAt(x[1..] + "%}", i)
      {
        assert !IsTagEndAt(x + "%}", i + 1);
      }
      assert !IsTagEndAt(x + "%}", 0);
      TagEndIndexAfter(x[1..], u);
    }
  }

  /** A fragment after literal text that opens nothing is the first cut. */
  lemma CutAfterLiteral(a: string, f: string, b: string)
    requires OpensNothing(a) && |f| >= 2 && AtFragmentStart(f + b) && FragmentLen(f + b) == |f|
    ensures FirstCut(a + f + b) == CutAt(a, f, b)
  {
    var u := f + b;
    var t := a + u;
    assert t == a + f + b;
    LiteralInFront(a, u);
    FirstCutIs(t, |a|, |f|);
    assert t[..|a|] == a;
    assert t[|a|..|a| + |f|] == f;
    assert t[|a| + |f|..] == b;
  }

  /** A closed variable `{{x}}`, x without `}`, is matched whole. */
  lemma VariableFragmentLen(x: string, b: string)
    requires forall i | 0 <= i < |x| :: x[i] != '}'
    ensures AtFragmentStart("{{" + x + "}}" + b) && FragmentLen("{{" + x + "}}" + b) == |x| + 4
  {
    var u := "{{" + x + "}}" + b;
    assert u[2..] == x + "}" + ("}" + b);
    CloseBraceIndexAfter(x, "}" + b);
    assert u[0] == '{' && u[1] == '{' && u[|x| + 3] == '}';
  }

  /** A closed tag `{%x%}`, x without `%}`, is matched whole. */
  lemma TagFragmentLen(x: string, b: string)
    requires forall i | 0 <= i < |x| :: !IsTagEndAt(x + "%}", i)
    ensures AtFragmentStart("{%" + x + "%}" + b) && FragmentLen("{%" + x + "%}" + b) == |x| + 4
  {
    var u := "{%" + x + "%}" + b;
    assert u[2..] == x + "%}" + b;
    TagEndIndexAfter(x, b);
    assert u[0] == '{' && u[1] == '%';
  }

  lemma PiecesOfCut(t: string)
    requires FirstCut(t).CutAt?
    ensures Pieces(t) == [FirstCut(t).lit, FirstCut(t).frag] + Pieces(FirstCut(t).rest)
  {
  }

  /** Text that opens nothing is a single piece. */
  lemma PiecesPlain(t: string)
    requires NoFragmentStart(t)
    ensures Pieces(t) == [t]
  {
    var k := FragmentStartIndex(t);
    if k < |t| {
      assert false;
    }
  }

  /** A fragment written out whole: `{{x}}` with no `}` in x, or `{%x%}` with no `%}` in x. */
  predicate ClosedFragment(f: string) {
    && |f| >= 4 && f[0] == '{'
    && ((f[1] == '{' && f[|f| - 2] == '}' && f[|f| - 1] == '}' && forall i | 2 <= i < |f| - 2 :: f[i] != '}')
        || (f[1] == '%' && IsTagEndAt(f, |f| - 2) && forall i | 2 <= i < |f| - 2 :: !IsTagEndAt(f, i)))
  }

  lemma ClosedFragmentLen(f: string, b: string)
    requires ClosedFragment(f)
    ensures AtFragmentStart(f + b) && FragmentLen(f + b) == |f|
  {
    var x := f[2..|f| - 2];
    if f[1] == '{' {
      assert f == "{{" + x + "}}";
      VariableFragmentLen(x, b);
    } else {
      assert f == "{%" + x + "%}";
      forall i | 0 <= i < |x|
        ensures !IsTagEndAt(x + "%}", i)
      {
        assert !IsTagEndAt(f, i + 2);
      }
      TagFragmentLen(x, b);
    }
  }

  /**
   * Pieces a template is written from: literal text and whole fragments in
   * turn, starting and ending with literal text; no literal opens a fragment,
   * and none but the last ends in a `{` that would join the next opening.
   */
  predicate WrittenPieces(r: seq<string>) {
    && |r| % 2 == 1
    && NoFragmentStart(r[|r| - 1])
    && (forall k | 0 <= k < |r| - 1 && k % 2 == 0 :: OpensNothing(r[k]))
    && (forall k | 0 <= k < |r| && k % 2 == 1 :: ClosedFragment(r[k]))
  }

  /** Splitting what was written from such pieces gives those pieces back. */
  lemma {:induction false} PiecesOfWritten(r: seq<string>)
    requires WrittenPieces(r)
    ensures Pieces(Concat(r)) == r
    decreases |r|
  {
    if |r| == 1 {
      assert r[1..] == [];
      assert Concat(r) == r[0];
      PiecesPlain(r[0]);
      assert r == [r[0]];
    } else {
      var tail := r[2..];
      assert r == [r[0], r[1]] + tail;
      ConcatCons(r[0], r[1], tail);
      assert WrittenPieces(tail) by {
        forall k | 0 <= k < |tail| - 1 && k % 2 == 0
          ensures OpensNothing(tail[k])
        {
          assert tail[k] == r[k + 2];
        }
        forall k | 0 <= k < |tail| && k % 2 == 1
          ensures ClosedFragment(tail[k])
        {
          assert tail[k] == r[k + 2];
        }
      }
      PiecesOfWritten(tail);
      ClosedFragmentLen(r[1], Concat(tail));
      CutAfterLiteral(r[0], r[1], Concat(tail));
      PiecesOfCut(Concat(r));
    }
  }

  /** The split of such a template is those pieces, less empty ends. */
  lemma SplitOfWritten(r: seq<string>)
    requires WrittenPieces(r)
    ensures Split(Concat(r)) == TrimEnds(r)
  {
    PiecesOfWritten(r);
    if Concat(r) == [] {
      assert |r| == 1;
      assert r == [r[0]];
    }
  }

  lemma WrittenLast(lit: string)
    requires NoFragmentStart(lit)
    ensures WrittenPieces([lit])
  {
  }

  lemma WrittenCons(lit: string, frag: string, tail: seq<string>)
    requires OpensNothing(lit) && ClosedFragment(frag) && WrittenPieces(tail)
    ensures WrittenPieces([lit, frag] + tail)
  {
    var r := [lit, frag] + tail;
    forall k | 2 <= k < |r|
      ensures r[k] == tail[k - 2]
    {
    }
  }

  /** Text of spaces opens nothing. */
  lemma BlankOpensNothing(a: string)
    requires forall i | 0 <= i < |a| :: a[i] == ' '
    ensures OpensNothing(a)
  {
    forall i | 0 <= i < |a|
      ensures !AtFragmentStart(a[i..])
    {
      assert a[i..][0] == a[i];
    }
  }

  /** A lower-case letter or a space: the text of the fragments below. */
  predicate IsPlainLetter(c: char) {
    c == ' ' || ('a' <= c <= 'z')
  }

  /** `{{x}}` with x of letters and spaces is a whole fragment. */
  lemma PlainVariableClosed(x: string, f: string)
    requires forall i | 0 <= i < |x| :: IsPlainLetter(x[i])
    requires f == "{{" + x + "}}"
    ensures ClosedFragment(f)
  {
    forall i | 2 <= i < |f| - 2
      ensures f[i] != '}'
    {
      assert f[i] == x[i - 2];
    }
  }

  /** `{%x%}` with x of letters and spaces is a whole fragment. */
  lemma PlainTagClosed(x: string, f: string)
    requires forall i | 0 <= i < |x| :: IsPlainLetter(x[i])
    requires f == "{%" + x + "%}"
    ensures ClosedFragment(f)
  {
    forall i | 2 <= i < |f| - 2
      ensures !IsTagEndAt(f, i)
    {
      assert f[i] == x[i - 2];
    }
  }

  /** With non-empty ends, the split gives back exactly the pieces written. */
  lemma SplitOfWrittenWhole(r: seq<string>)
    requires WrittenPieces(r) && r[0] != [] && r[|r| - 1] != []
    ensures Split(Concat(r)) == r
  {
    SplitOfWritten(r);
  }

  /** Literal, fragment, literal: split gives the three back when the literals are not empty. */
  lemma SplitThree(a: string, f: string, b: string)
    requires OpensNothing(a) && ClosedFragment(f) && NoFragmentStart(b)
    ensures Split(a + f + b) == TrimEnds([a, f, b])
  {
    WrittenLast(b);
    WrittenCons(a, f, [b]);
    var r := [a, f, b];
    assert r == [a, f] + [b];
    SplitOfWritten(r);
    ConcatCons(a, f, [b]);
    assert Concat([b]) == b + Concat([]);
    assert Concat(r) == a + f + b;
  }

  /**
   * `  {{funk}}  `: text, variable, text.
   * The parameters only name the literals, which keeps the proof cheap.
   */
  lemma SplitVariableMiddle(a: string, f: string)
    requires a == "  " && f == "{{funk}}"
    ensures Split(a + f + a) == [a, f, a]
  {
    BlankOpensNothing(a);
    PlainVariableClosed("funk", f);
    SplitThree(a, f, a);
  }

  /**
   * `{{funk}}  `: the empty text before the variable is dropped.
   * The parameters only name the literals, which keeps the proof cheap.
   */
  lemma SplitVariableBeginning(f: string, b: string)
    requires f == "{{funk}}" && b == "  "
    ensures Split(f + b) == [f, b]
  {
    BlankOpensNothing([]);
    BlankOpensNothing(b);
    PlainVariableClosed("funk", f);
    SplitThree([], f, b);
    assert [] + f + b == f + b;
  }

  /**
   * `  {{funk}}`: the empty text after the variable is dropped.
   * The parameters only name the literals, which keeps the proof cheap.
   */
  lemma SplitVariableEnd(a: string, f: string)
    requires a == "  " && f == "{{funk}}"
    ensures Split(a + f) == [a, f]
  {
    BlankOpensNothing(a);
    BlankOpensNothing([]);
    PlainVariableClosed("funk", f);
    SplitThree(a, f, []);
    assert a + f + [] == a + f;
  }

  lemma PiecesOfFive(a: string, f1: string, s: string, f2: string, b: string)
    requires OpensNothing(a) && OpensNothing(s) && NoFragmentStart(b)
    requires ClosedFragment(f1) && ClosedFragment(f2)
    ensures WrittenPieces([a, f1, s, f2, b])
    ensures Concat([a, f1, s, f2, b]) == a + f1 + s + f2 + b
  {
    var tail := [s, f2, b];
    WrittenLast(b);
    WrittenCons(s, f2, [b]);
    assert [s, f2] + [b] == tail;
    WrittenCons(a, f1, tail);
    ConcatCons(s, f2, [b]);
    assert Concat([b]) == b + Concat([]);
    ConcatCons(a, f1, tail);
    assert [a, f1] + tail == [a, f1, s, f2, b];
  }

  lemma PiecesOfSeven(a: string, f1: string, s1: string, f2: string, s2: string, f3: string, b: string)
    requires OpensNothing(a) && OpensNothing(s1) && OpensNothing(s2) && NoFragmentStart(b)
    requires ClosedFragment(f1) && ClosedFragment(f2) && ClosedFragment(f3)
    ensures WrittenPieces([a, f1, s1, f2, s2, f3, b])
    ensures Concat([a, f1, s1, f2, s2, f3, b]) == a + f1 + s1 + f2 + s2 + f3 + b
  {
    var tail := [s1, f2, s2, f3, b];
    PiecesOfFive(s1, f2, s2, f3, b);
    WrittenCons(a, f1, tail);
    ConcatCons(a, f1, tail);
    assert [a, f1] + tail == [a, f1, s1, f2, s2, f3, b];
    assert a + f1 + (s1 + f2 + s2 + f3 + b) == a + f1 + s1 + f2 + s2 + f3 + b;
  }

  /**
   * `  {{funk}} {{so}} {{brother}} `: seven pieces, text and variables in turn.
   * The parameters only name the literals, which keeps the proof cheap.
   */
  lemma SplitManyVariables(a: string, s: string, f1: string, f2: string, f3: string)
    requires a == "  " && s == " " && f1 == "{{funk}}" && f2 == "{{so}}" && f3 == "{{brother}}"
    ensures Split(a + f1 + s + f2 + s + f3 + s) == [a, f1, s, f2, s, f3, s]
  {
    BlankOpensNothing(a);
    BlankOpensNothing(s);
    PlainVariableClosed("funk", f1);
    PlainVariableClosed("so", f2);
    PlainVariableClosed("brother", f3);
    PiecesOfSeven(a, f1, s, f2, s, f3, s);
    SplitOfWrittenWhole([a, f1, s, f2, s, f3, s]);
  }

  /**
   * `{% comment %}` and `{% endcomment %}` are whole fragments.
   * The parameters only name the literals, which keeps the proof cheap.
   */
  lemma CommentTagClosed(f: string, x: string)
    requires x == " comment " || x == " endcomment "
    requires f == "{%" + x + "%}"
    ensures ClosedFragment(f)
  {
    PlainTagClosed(x, f);
  }

  /**
   * `  {% comment %} {% endcomment %} `: text and tags in turn.
   * The parameters only name the literals, which keeps the proof cheap.
   */
  lemma SplitWithBlock(a: string, s: string, f1: string, f2: string)
    requires a == "  " && s == " " && f1 == "{% comment %}" && f2 == "{% endcomment %}"
    ensures Split(a + f1 + s + f2 + s) == [a, f1, s, f2, s]
  {
    BlankOpensNothing(a);
    BlankOpensNothing(s);
    CommentTagClosed(f1, " comment ");
    CommentTagClosed(f2, " endcomment ");
    PiecesOfFive(a, f1, s, f2, s);
    SplitOfWrittenWhole([a, f1, s, f2, s]);
  }
}
