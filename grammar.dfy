/**
 * The shared lexical definitions of the template language (lib/twig.rb).
 *
 * Each regular expression of the source is modelled twice:
 *  - as a language, a predicate saying which strings the pattern matches
 *    as a whole (IsQuotedString, IsSignatureRun, ...);
 *  - as a matcher, a function `...Len(t)` giving the length of the match the
 *    Ruby regex engine takes at the START of `t` (0 when it does not match
 *    there; none of these patterns matches the empty string).
 * None of the patterns uses an anchor or a look-behind, so a match at
 * position i of a string s depends only on the suffix s[i..]; unanchored
 * searches are written as recursion over suffixes.
 */
module Grammar {

  // ---------------------------------------------------------------------
  // Character classes
  // ---------------------------------------------------------------------

  /** `\w`: Ruby's word class, ASCII letters, digits and underscore. */
  predicate IsWordChar(c: char) {
    ('a' <= c <= 'z') || ('A' <= c <= 'Z') || ('0' <= c <= '9') || c == '_'
  }

  /** `\s`: space, tab, line feed, vertical tab, form feed, carriage return. */
  predicate IsSpace(c: char) {
    c == ' ' || c == '\t' || c == '\n' || c == '\U{000B}' || c == '\U{000C}' || c == '\r'
  }

  /** VariableSegment, `[\w\-]`. */
  predicate IsSegmentChar(c: char) {
    IsWordChar(c) || c == '-'
  }

  /** The class inside VariableSignature, `[\w\-\.\[\]]`. */
  predicate IsNameChar(c: char) {
    IsSegmentChar(c) || c == '.' || c == '[' || c == ']'
  }

  predicate IsQuote(c: char) {
    c == '"' || c == '\''
  }

  predicate IsOpenParen(c: char) {
    c == '('
  }

  predicate IsCloseParen(c: char) {
    c == ')'
  }

  predicate IsOpenBracket(c: char) {
    c == '['
  }

  predicate IsCloseBracket(c: char) {
    c == CloseBracket
  }

  /** The character that closes a bracketed path segment. */
  const CloseBracket: char := ']'

  /** What may follow a path segment: a dot or the next bracketed segment. */
  predicate IsPathSeparator(c: char) {
    c == '.' || c == '['
  }

  predicate AllSpace(t: string) {
    forall k | 0 <= k < |t| :: IsSpace(t[k])
  }

  predicate AllWordChars(t: string) {
    forall k | 0 <= k < |t| :: IsWordChar(t[k])
  }

  predicate AllSegmentChars(t: string) {
    forall k | 0 <= k < |t| :: IsSegmentChar(t[k])
  }

  /** The first `n` characters of `t`: the text a match of length `n` covers. */
  function Prefix(t: string, n: nat): string
    requires n <= |t|
  {
    t[..n]
  }

  /** `\s*`, greedy: the longest all-space prefix. */
  function SpaceLen(t: string): (n: nat)
    ensures n <= |t| && AllSpace(Prefix(t, n))
    ensures n == |t| || !IsSpace(t[n])
    decreases |t|
  {
    if t != [] && IsSpace(t[0]) then
      var m := SpaceLen(t[1..]);
      assert t[..1 + m] == [t[0]] + t[1..][..m];
      1 + m
    else 0
  }

  /** A greedy `\s*` can only stop at its maximal end. */
  lemma {:induction false} SpaceLenUnique(t: string, n: nat)
    requires n <= |t| && AllSpace(t[..n]) && (n == |t| || !IsSpace(t[n]))
    ensures SpaceLen(t) == n
    decreases |t|
  {
    if n > 0 {
      assert t[1..][..n - 1] == t[..n][1..];
      assert n - 1 == |t[1..]| || t[1..][n - 1] == t[n];
      SpaceLenUnique(t[1..], n - 1);
    }
  }

  /** `\w+`, greedy. */
  function WordRunLen(t: string): (n: nat)
    ensures n <= |t| && AllWordChars(Prefix(t, n))
    ensures n == |t| || !IsWordChar(t[n])
    decreases |t|
  {
    if t != [] && IsWordChar(t[0]) then
      var m := WordRunLen(t[1..]);
      assert t[..1 + m] == [t[0]] + t[1..][..m];
      1 + m
    else 0
  }

  /** `[\w\-]+`, greedy. */
  function SegmentRunLen(t: string): (n: nat)
    ensures n <= |t| && AllSegmentChars(Prefix(t, n))
    ensures n == |t| || !IsSegmentChar(t[n])
    decreases |t|
  {
    if t != [] && IsSegmentChar(t[0]) then
      var m := SegmentRunLen(t[1..]);
      assert t[..1 + m] == [t[0]] + t[1..][..m];
      1 + m
    else 0
  }

  /** Position of the first `c` in `t`, or |t| when there is none. */
  function IndexOf(t: string, c: char): (k: nat)
    ensures k <= |t|
    ensures k < |t| ==> t[k] == c
    ensures forall i | 0 <= i < k :: t[i] != c
    decreases |t|
  {
    if t == [] then 0
    else if t[0] == c then 0
    else 1 + IndexOf(t[1..], c)
  }

  // ---------------------------------------------------------------------
  // QuotedString = /"[^"]*"|'[^']*'/
  // ---------------------------------------------------------------------

  /** A quote, a run free of that quote, the same quote again; no escapes. */
  predicate IsQuotedString(t: string) {
    && |t| >= 2
    && IsQuote(t[0])
    && t[|t| - 1] == t[0]
    && forall k | 1 <= k < |t| - 1 :: t[k] != t[0]
  }

  function QuotedStringLen(t: string): (n: nat)
    ensures n <= |t|
    ensures n > 0 ==> IsQuotedString(Prefix(t, n))
  {
    if t != [] && IsQuote(t[0]) then
      var k := IndexOf(t[1..], t[0]);
      if k < |t| - 1 then k + 2 else 0
    else 0
  }

  /** The matcher takes exactly the one quoted-string prefix there is. */
  lemma QuotedStringPrefixUnique(t: string, n: nat)
    requires 0 < n <= |t|
    ensures IsQuotedString(t[..n]) <==> n == QuotedStringLen(t)
  {
    if IsQuotedString(t[..n]) {
      var q := t[0];
      var k := IndexOf(t[1..], q);
      assert t[1..][n - 2] == q;
      assert forall i | 0 <= i < n - 2 :: t[1..][i] == t[..n][i + 1];
      assert k == n - 2;
    }
  }

  // ---------------------------------------------------------------------
  // QuotedFragment = /QuotedString|(?:[^\s,\|'"]|QuotedString)+/
  // ---------------------------------------------------------------------

  /** `[^\s,\|'"]` */
  predicate IsPlainFragmentChar(c: char) {
    !IsSpace(c) && c != ',' && c != '|' && !IsQuote(c)
  }

  /** `t` begins with one repetition of the group, `n` characters long. */
  predicate IsFragmentUnit(t: string, n: nat) {
    0 < n <= |t| && ((n == 1 && IsPlainFragmentChar(t[0])) || IsQuotedString(t[..n]))
  }

  /** The language of `(?:[^\s,\|'"]|QuotedString)+`. */
  predicate IsFragmentUnits(t: string)
    decreases |t|
  {
    exists n | 0 < n <= |t| :: IsFragmentUnit(t, n) && (n == |t| || IsFragmentUnits(t[n..]))
  }

  /** The language of QuotedFragment. */
  predicate IsQuotedFragment(t: string) {
    IsQuotedString(t) || IsFragmentUnits(t)
  }

  /** One repetition of the group: a plain character or a quoted string. */
  function FragmentUnitLen(t: string): (n: nat)
    ensures n <= |t|
  {
    if t != [] && IsPlainFragmentChar(t[0]) then 1 else QuotedStringLen(t)
  }

  /** The group repeated greedily. */
  function FragmentUnitsLen(t: string): (n: nat)
    ensures n <= |t|
    decreases |t|
  {
    var u := FragmentUnitLen(t);
    if u == 0 then 0 else u + FragmentUnitsLen(t[u..])
  }

  /** What the greedy repetition takes is in the language. */
  lemma {:induction false} FragmentUnitsLenSound(t: string)
    ensures FragmentUnitsLen(t) > 0 ==> IsFragmentUnits(t[..FragmentUnitsLen(t)])
    decreases |t|
  {
    var u := FragmentUnitLen(t);
    if u > 0 {
      var m := FragmentUnitsLen(t[u..]);
      FragmentUnitsLenSound(t[u..]);
      assert t[..u + m][..u] == t[..u];
      assert m > 0 ==> t[..u + m][u..] == t[u..][..m];
      assert IsFragmentUnit(t[..u + m], u);
    }
  }

  /**
   * QuotedFragment at the start of `t`. The engine tries the first
   * alternative first, so a leading quoted string ends the match even when
   * plain characters follow it (`'a'b` matches `'a'`).
   */
  function QuotedFragmentLen(t: string): (n: nat)
    ensures n <= |t|
    ensures n > 0 ==> IsQuotedFragment(Prefix(t, n))
    ensures n == 0 <==> (t == [] || (!IsPlainFragmentChar(t[0]) && QuotedStringLen(t) == 0))
  {
    var q := QuotedStringLen(t);
    FragmentUnitsLenSound(t);
    if q > 0 then q else FragmentUnitsLen(t)
  }

  /** Unit boundaries of a prefix agree with those of the whole string. */
  lemma FragmentUnitOfPrefix(t: string, j: nat, n: nat)
    requires 0 < n <= j <= |t|
    requires IsFragmentUnit(t[..j], n)
    ensures FragmentUnitLen(t) == n
  {
    assert t[..j][0] == t[0];
    if !(n == 1 && IsPlainFragmentChar(t[0])) {
      assert t[..j][..n] == t[..n];
      QuotedStringPrefixUnique(t, n);
    }
  }

  /** The greedy repetition is its first unit, then the greedy repetition of the rest. */
  lemma FragmentUnitsStep(t: string, n: nat)
    requires 0 < n == FragmentUnitLen(t)
    ensures FragmentUnitsLen(t) == n + FragmentUnitsLen(t[n..])
  {
  }

  lemma SliceOfPrefix(t: string, n: nat, j: nat)
    requires n <= j <= |t|
    ensures t[..j][n..] == t[n..][..j - n]
  {
  }

  /** A text in the language begins with one unit, followed by nothing or by more units. */
  lemma FragmentUnitsHead(p: string) returns (n: nat)
    requires IsFragmentUnits(p)
    ensures 0 < n <= |p| && IsFragmentUnit(p, n) && (n == |p| || IsFragmentUnits(p[n..]))
  {
    n :| 0 < n <= |p| && IsFragmentUnit(p, n) && (n == |p| || IsFragmentUnits(p[n..]));
  }

  /**
   * A longer prefix in the language would start with the same first unit
   * as the greedy match, leaving a shorter text that beats the greedy match
   * of the rest.
   */
  lemma LongerUnitsSplit(t: string, j: nat) returns (n: nat)
    requires FragmentUnitsLen(t) < j <= |t| && IsFragmentUnits(t[..j])
    ensures 0 < n < j && FragmentUnitsLen(t[n..]) < j - n && IsFragmentUnits(Prefix(t[n..], j - n))
  {
    var p := t[..j];
    n := FragmentUnitsHead(p);
    FragmentUnitOfPrefix(t, j, n);
    FragmentUnitsStep(t, n);
    SliceOfPrefix(t, n, j);
  }

  /** The greedy repetition is the longest prefix in the language. */
  lemma {:induction false} FragmentUnitsLongest(t: string, j: nat)
    requires FragmentUnitsLen(t) < j <= |t|
    ensures !IsFragmentUnits(t[..j])
    decreases |t|
  {
    if IsFragmentUnits(t[..j]) {
      var n := LongerUnitsSplit(t, j);
      var u := t[n..];
      assert IsFragmentUnits(u[..j - n]);
      FragmentUnitsLongest(u, j - n);
      assert false;
    }
  }

  /**
   * The first alternative wins: when `t` starts with a quoted string,
   * QuotedFragment takes exactly that string, whatever follows it.
   */
  lemma QuotedFragmentPrefersString(t: string, k: nat)
    requires 0 < k <= |t| && IsQuotedString(t[..k])
    ensures QuotedFragmentLen(t) == k
  {
    QuotedStringPrefixUnique(t, k);
  }

  /**
   * Otherwise QuotedFragment takes the longest unit run: no longer prefix
   * of `t` is in the QuotedFragment language.
   */
  lemma QuotedFragmentLongest(t: string, j: nat)
    requires forall k | 0 < k <= |t| :: !IsQuotedString(t[..k])
    requires QuotedFragmentLen(t) < j <= |t|
    ensures !IsQuotedFragment(t[..j])
  {
    if QuotedStringLen(t) > 0 {
      QuotedStringPrefixUnique(t, QuotedStringLen(t));
      assert false;
    }
    FragmentUnitsLongest(t, j);
  }

  /**
   * `'a'b` matches `'a'`: the quoted string ends the match although the
   * plain character `b` follows. The parameter only names the literal.
   */
  lemma QuotedThenPlain(t: string)
    requires t == "'a'b"
    ensures QuotedFragmentLen(t) == 3
  {
    assert t[..3] == "'a'";
    QuotedFragmentPrefersString(t, 3);
  }

  // ---------------------------------------------------------------------
  // TagAttributes = /(\w+)\s*\:\s*(QuotedFragment)/
  // ---------------------------------------------------------------------

  datatype Attribute = Attribute(key: string, value: string)

  /**
   * `t` begins with a whole TagAttributes match cut as key `t[..w]`,
   * spaces `t[w..a]`, the colon `t[a]`, spaces `t[a + 1..b]` and value `t[b..e]`.
   */
  predicate AttributeShape(t: string, w: nat, a: nat, b: nat, e: nat) {
    && 0 < w <= a < b <= e <= |t|
    && AllWordChars(t[..w])
    && AllSpace(t[w..a])
    && t[a] == ':'
    && AllSpace(t[a + 1..b])
    && IsQuotedFragment(t[b..e])
  }

  /** A TagAttributes match at the start of a string, by its cut points. */
  datatype AttributeMatch = NoAttribute | AttributeCuts(w: nat, a: nat, b: nat, e: nat)

  /** The pieces an AttributeAt scan measures, seen as slices of `t`. */
  lemma AttributeCutsShape(t: string, w: nat, a: nat, b: nat, e: nat)
    requires 0 < w <= a && a + 1 <= b <= e <= |t| && a < |t| && e > b
    requires AllWordChars(t[..w]) && AllSpace(t[w..][..a - w]) && t[a] == ':'
    requires AllSpace(t[a + 1..][..b - a - 1]) && IsQuotedFragment(t[b..][..e - b])
    ensures AttributeShape(t, w, a, b, e)
  {
    assert t[w..][..a - w] == t[w..a];
    assert t[a + 1..][..b - a - 1] == t[a + 1..b];
    assert t[b..][..e - b] == t[b..e];
  }

  /**
   * TagAttributes at the start of `t`. A match has the shape of TagAttributes,
   * and when `t` begins with any TagAttributes match the one found has the
   * same key, the same colon and the same start of the value.
   */
  function AttributeAt(t: string): (r: AttributeMatch)
    ensures r.AttributeCuts? ==> AttributeShape(t, r.w, r.a, r.b, r.e)
    ensures forall w: nat, a: nat, b: nat, e: nat | AttributeShape(t, w, a, b, e) ::
      r.AttributeCuts? && r.w == w && r.a == a && r.b == b
  {
    KeysFixed(t);
    var w := WordRunLen(t);
    if w == 0 then NoAttribute
    else
      var a := w + SpaceLen(t[w..]);
      if a < |t| && t[a] == ':' then
        ValuesFixed(t, w, a);
        AttributeValueAt(t, w, a)
      else NoAttribute
  }

  /** The value part of TagAttributes, once the key and the `:` at `a` have matched. */
  function AttributeValueAt(t: string, w: nat, a: nat): (r: AttributeMatch)
    requires 0 < w <= a < |t| && t[a] == ':'
    requires AllWordChars(t[..w]) && AllSpace(t[w..][..a - w])
    ensures r.AttributeCuts? ==> AttributeShape(t, r.w, r.a, r.b, r.e)
  {
    var b := a + 1 + SpaceLen(t[a + 1..]);
    var q := QuotedFragmentLen(t[b..]);
    if q == 0 then NoAttribute
    else
      AttributeCutsShape(t, w, a, b, b + q);
      AttributeCuts(w, a, b, b + q)
  }

  /** `markup.scan(TagAttributes)`: every leftmost, non-overlapping match, as key and value. */
  function ScanAttributes(t: string): (r: seq<Attribute>)
    ensures forall k | 0 <= k < |r| :: |r[k].key| > 0 && AllWordChars(r[k].key) && IsQuotedFragment(r[k].value)
    decreases |t|
  {
    if t == [] then []
    else
      match AttributeAt(t)
      case NoAttribute => ScanAttributes(t[1..])
      case AttributeCuts(w, a, b, e) => [Attribute(t[..w], t[b..e])] + ScanAttributes(t[e..])
  }

  /** A greedy `\w+` can only stop at its maximal end. */
  lemma {:induction false} WordRunLenUnique(t: string, n: nat)
    requires n <= |t| && AllWordChars(t[..n]) && (n == |t| || !IsWordChar(t[n]))
    ensures WordRunLen(t) == n
    decreases |t|
  {
    if n > 0 {
      assert t[1..][..n - 1] == t[..n][1..];
      assert n - 1 == |t[1..]| || t[1..][n - 1] == t[n];
      WordRunLenUnique(t[1..], n - 1);
    }
  }

  /**
   * A QuotedFragment can open wherever a text in its language starts: that
   * text begins with a plain fragment character or a quote, never with white space.
   */
  lemma QuotedFragmentOpens(u: string, e: nat)
    requires 0 < e <= |u| && IsQuotedFragment(u[..e])
    ensures QuotedFragmentLen(u) > 0 && !IsSpace(u[0])
  {
    var p := u[..e];
    assert p[0] == u[0];
    if IsQuotedString(p) {
      QuotedStringPrefixUnique(u, e);
    } else {
      var n := FragmentUnitsHead(p);
      if !(n == 1 && IsPlainFragmentChar(p[0])) {
        assert p[..n] == u[..n];
        QuotedStringPrefixUnique(u, n);
      }
    }
  }

  /** Every TagAttributes match at the start of `t` has the key and the colon the matcher finds. */
  lemma KeysFixed(t: string)
    ensures forall w: nat, a: nat, b: nat, e: nat | AttributeShape(t, w, a, b, e) ::
      WordRunLen(t) == w && w + SpaceLen(t[w..]) == a
  {
    forall w: nat, a: nat, b: nat, e: nat | AttributeShape(t, w, a, b, e)
      ensures WordRunLen(t) == w && w + SpaceLen(t[w..]) == a
    {
      KeyAndColonFound(t, w, a, b, e);
    }
  }

  /** Every TagAttributes match with key and colon at `w` and `a` has its value where the matcher reads it. */
  lemma ValuesFixed(t: string, w: nat, a: nat)
    requires 0 < w <= a < |t| && t[a] == ':'
    requires AllWordChars(t[..w]) && AllSpace(t[w..][..a - w])
    ensures forall b: nat, e: nat | AttributeShape(t, w, a, b, e) ::
      AttributeValueAt(t, w, a).AttributeCuts? && AttributeValueAt(t, w, a).w == w &&
      AttributeValueAt(t, w, a).a == a && AttributeValueAt(t, w, a).b == b
  {
    forall b: nat, e: nat | AttributeShape(t, w, a, b, e)
      ensures AttributeValueAt(t, w, a).AttributeCuts? && AttributeValueAt(t, w, a).w == w
      ensures AttributeValueAt(t, w, a).a == a && AttributeValueAt(t, w, a).b == b
    {
      AttributeValueAtComplete(t, w, a, b, e);
    }
  }

  /** The key and the colon of a TagAttributes match are where the matcher looks for them. */
  lemma KeyAndColonFound(t: string, w: nat, a: nat, b: nat, e: nat)
    requires AttributeShape(t, w, a, b, e)
    ensures WordRunLen(t) == w && w + SpaceLen(t[w..]) == a
  {
    if a > w {
      assert t[w..a][0] == t[w];
    }
    WordRunLenUnique(t, w);
    assert t[w..][..a - w] == t[w..a];
    SpaceLenUnique(t[w..], a - w);
  }

  /** Once key and colon are found, the value of a TagAttributes match starts at b. */
  lemma AttributeValueAtComplete(t: string, w: nat, a: nat, b: nat, e: nat)
    requires AttributeShape(t, w, a, b, e)
    ensures AllSpace(t[w..][..a - w])
    ensures AttributeValueAt(t, w, a).AttributeCuts?
    ensures AttributeValueAt(t, w, a).w == w && AttributeValueAt(t, w, a).a == a
    ensures AttributeValueAt(t, w, a).b == b
  {
    assert t[w..][..a - w] == t[w..a];
    ValueStartFound(t, a, b, e);
    ValueAtIs(t, w, a, b, QuotedFragmentLen(t[b..]));
  }

  /** Where the value starts at `b` and is `q` long, AttributeValueAt cuts there. */
  lemma ValueAtIs(t: string, w: nat, a: nat, b: nat, q: nat)
    requires 0 < w <= a < |t| && t[a] == ':'
    requires AllWordChars(t[..w]) && AllSpace(t[w..][..a - w])
    requires b == a + 1 + SpaceLen(t[a + 1..]) && q == QuotedFragmentLen(t[b..]) && q > 0
    ensures AttributeValueAt(t, w, a) == AttributeCuts(w, a, b, b + q)
  {
  }

  /** The spaces after the colon end where the value starts, and a value is found there. */
  lemma ValueStartFound(t: string, a: nat, b: nat, e: nat)
    requires a < b < e <= |t| && AllSpace(t[a + 1..b]) && IsQuotedFragment(t[b..e])
    ensures a + 1 + SpaceLen(t[a + 1..]) == b && QuotedFragmentLen(t[b..]) > 0
  {
    var v := t[b..];
    assert v[..e - b] == t[b..e];
    QuotedFragmentOpens(v, e - b);
    var u := t[a + 1..];
    assert u[..b - a - 1] == t[a + 1..b];
    assert u[b - a - 1] == v[0];
    SpaceLenUnique(u, b - a - 1);
  }

  /**
   * A TagAttributes match at the start of the markup is the first attribute
   * the scan reports, with the key it spells.
   */
  lemma ScanAttributesHead(t: string, w: nat, a: nat, b: nat, e: nat)
    requires AttributeShape(t, w, a, b, e)
    ensures AttributeAt(t).AttributeCuts? && AttributeAt(t).b == b && |ScanAttributes(t)| > 0
    ensures ScanAttributes(t)[0] == Attribute(t[..w], t[b..AttributeAt(t).e])
    ensures ScanAttributes(t)[1..] == ScanAttributes(t[AttributeAt(t).e..])
  {
  }

  /**
   * The scan moves on by one character exactly where no attribute starts:
   * when no TagAttributes match begins at the start of `t`, the scan of `t`
   * is the scan of the text after its first character.
   */
  lemma ScanAttributesNoMatch(t: string)
    requires t != []
    requires forall w: nat, a: nat, b: nat, e: nat :: !AttributeShape(t, w, a, b, e)
    ensures ScanAttributes(t) == ScanAttributes(t[1..])
  {
  }

  /**
   * No attribute starts at a character other than a word character, so a
   * text that begins with one yields what the rest yields.
   */
  lemma ScanAttributesSkip(t: string)
    requires t != [] && !IsWordChar(t[0])
    ensures ScanAttributes(t) == ScanAttributes(t[1..])
  {
  }

  // ---------------------------------------------------------------------
  // VariableSignature = /\(?[\w\-\.\[\]]\)?/, used repeated as the target
  // of the set tag.
  // ---------------------------------------------------------------------

  /** One match of VariableSignature: a name character, optionally parenthesised on either side. */
  predicate IsSignatureUnit(t: string) {
    || (|t| == 1 && IsNameChar(t[0]))
    || (|t| == 2 && t[0] == '(' && IsNameChar(t[1]))
    || (|t| == 2 && IsNameChar(t[0]) && t[1] == ')')
    || (|t| == 3 && t[0] == '(' && IsNameChar(t[1]) && t[2] == ')')
  }

  /** A character that can occur in a run of VariableSignature units. */
  predicate IsSignatureChar(c: char) {
    IsNameChar(c) || c == '(' || c == ')'
  }

  /**
   * The language of `(?:VariableSignature)+`, stated character by
   * character: a non-empty text of name characters and parentheses where
   * every `(` is followed by a name character and every `)` follows one.
   * SignatureRunUnits shows this is exactly a concatenation of units.
   */
  predicate IsSignatureRun(t: string) {
    && |t| > 0
    && (forall i | 0 <= i < |t| :: IsSignatureChar(t[i]))
    && (forall i | 0 <= i < |t| && t[i] == '(' :: i + 1 < |t| && IsNameChar(t[i + 1]))
    && (forall i | 0 <= i < |t| && t[i] == ')' :: 0 < i && IsNameChar(t[i - 1]))
  }

  /** A character at which every signature run has to stop. */
  predicate IsSignatureStop(c: char) {
    !IsSignatureChar(c)
  }

  /** One greedy VariableSignature at the start of `t`. */
  function SignatureUnitLen(t: string): (n: nat)
    ensures n <= |t| && n <= 3
    ensures n > 0 ==> IsSignatureUnit(Prefix(t, n))
  {
    if |t| >= 2 && t[0] == '(' && IsNameChar(t[1]) then
      (if |t| >= 3 && t[2] == ')' then 3 else 2)
    else if |t| >= 1 && IsNameChar(t[0]) then
      (if |t| >= 2 && t[1] == ')' then 2 else 1)
    else 0
  }

  /** A unit followed by a run (or by nothing) is a run. */
  lemma RunJoin(u: string, a: string)
    requires IsSignatureUnit(u) && (a == [] || IsSignatureRun(a))
    ensures IsSignatureRun(u + a)
  {
    var t := u + a;
    forall i | 0 <= i < |t| && t[i] == ')'
      ensures 0 < i && IsNameChar(t[i - 1])
    {
      if i >= |u| {
        assert a[i - |u|] == ')';
        if i == |u| {
          assert false;
        }
        assert t[i - 1] == a[i - |u| - 1];
      }
    }
    forall i | 0 <= i < |t| && t[i] == '('
      ensures i + 1 < |t| && IsNameChar(t[i + 1])
    {
      if i >= |u| {
        assert a[i - |u|] == '(';
      }
    }
  }

  /** A run, less the greedy unit at its start, is empty or a run again. */
  lemma RunSplit(t: string)
    requires IsSignatureRun(t)
    ensures 0 < SignatureUnitLen(t)
    ensures var n := SignatureUnitLen(t); n == |t| || IsSignatureRun(t[n..])
  {
    var n := SignatureUnitLen(t);
    if n < |t| {
      var a := t[n..];
      assert a[0] != ')';
      forall i | 0 <= i < |a| && a[i] == ')'
        ensures 0 < i && IsNameChar(a[i - 1])
      {
        assert t[n + i] == ')';
      }
      forall i | 0 <= i < |a| && a[i] == '('
        ensures i + 1 < |a| && IsNameChar(a[i + 1])
      {
        assert t[n + i] == '(';
      }
    }
  }

  /** A unit followed by a run or by nothing, as the regex reads `(?:VariableSignature)+`. */
  predicate IsUnitThenRun(t: string, n: nat) {
    0 < n <= |t| && n <= 3 && IsSignatureUnit(t[..n]) && (n == |t| || IsSignatureRun(t[n..]))
  }

  lemma UnitsAsRun(t: string, n: nat)
    requires IsUnitThenRun(t, n)
    ensures IsSignatureRun(t)
  {
    assert t == t[..n] + t[n..];
    RunJoin(t[..n], t[n..]);
  }

  /** The character-level description agrees with the regex: a run is a unit followed by a run, or one unit. */
  lemma SignatureRunUnits(t: string)
    ensures IsSignatureRun(t) <==> exists n :: IsUnitThenRun(t, n)
  {
    if IsSignatureRun(t) {
      RunSplit(t);
      assert IsUnitThenRun(t, SignatureUnitLen(t));
    }
    if exists n :: IsUnitThenRun(t, n) {
      var n :| IsUnitThenRun(t, n);
      UnitsAsRun(t, n);
    }
  }

  /** `(?:VariableSignature)+`, greedy, at the start of `t`. */
  function SignatureRunLen(t: string): (n: nat)
    ensures n <= |t|
    ensures n > 0 ==> IsSignatureRun(Prefix(t, n))
    decreases |t|
  {
    var u := SignatureUnitLen(t);
    if u == 0 then 0
    else
      var m := SignatureRunLen(t[u..]);
      assert t[..u + m] == t[..u] + t[u..][..m];
      RunJoin(t[..u], t[u..][..m]);
      u + m
  }

  /** A run starts with a name character or a `(`. */
  lemma SignatureRunStart(t: string)
    requires IsSignatureRun(t)
    ensures IsOpenParen(t[0]) || IsNameChar(t[0])
  {
    assert IsSignatureChar(t[0]);
  }

  /** Cutting a run where no `)` follows leaves a run behind. */
  lemma RunSuffix(r: string, k: nat)
    requires IsSignatureRun(r) && 0 < k < |r| && !IsCloseParen(r[k])
    ensures IsSignatureRun(r[k..])
  {
    var a := r[k..];
    forall i | 0 <= i < |a| && a[i] == ')'
      ensures 0 < i && IsNameChar(a[i - 1])
    {
      assert r[k + i] == ')';
    }
    forall i | 0 <= i < |a| && a[i] == '('
      ensures i + 1 < |a| && IsNameChar(a[i + 1])
    {
      assert r[k + i] == '(';
    }
  }

  /**
   * A run followed by a stop character, or by nothing, is the one the
   * greedy matcher takes; this is why the engine's backtracking cannot
   * pick a different target for the set tag.
   */
  lemma {:induction false} SignatureRunEndsAtStop(t: string, j: nat)
    requires 0 < j <= |t| && IsSignatureRun(t[..j])
    requires j == |t| || IsSignatureStop(t[j])
    ensures SignatureRunLen(t) == j
    decreases |t|
  {
    var r := t[..j];
    RunSplit(r);
    var u := SignatureUnitLen(r);
    assert SignatureUnitLen(t) == u;
    if u < j {
      assert r[u] != ')';
      RunSuffix(r, u);
      assert r[u..] == t[u..][..j - u];
      assert j - u == |t[u..]| || t[u..][j - u] == t[j];
      SignatureRunEndsAtStop(t[u..], j - u);
    } else {
      assert SignatureUnitLen(t[u..]) == 0 by {
        assert t[u..] == [] || t[u..][0] == t[j];
      }
    }
  }

  /** A prefix reaching past the first unit starts with that same unit. */
  lemma UnitOfPrefix(t: string, j: nat)
    requires SignatureUnitLen(t) < j <= |t|
    ensures SignatureUnitLen(t[..j]) == SignatureUnitLen(t)
  {
  }

  /** The greedy run is the longest signature-run prefix. */
  lemma {:induction false} SignatureRunLongest(t: string, j: nat)
    requires SignatureRunLen(t) < j <= |t|
    ensures !IsSignatureRun(t[..j])
    decreases |t|
  {
    var r := t[..j];
    if IsSignatureRun(r) {
      UnitOfPrefix(t, j);
      RunSplit(r);
      var u := SignatureUnitLen(t);
      if u < j {
        assert r[u..] == t[u..][..j - u];
        SignatureRunLongest(t[u..], j - u);
      }
    }
  }

  /** A run contains a name character among its first two characters. */
  lemma SignatureRunHasNameChar(t: string)
    requires SignatureRunLen(t) > 0
    ensures IsNameChar(t[0]) || (|t| > 1 && IsNameChar(t[1]))
  {
  }

  /** Any name character starts a unit. */
  lemma NameCharStartsRun(t: string)
    requires t != [] && IsNameChar(t[0])
    ensures SignatureRunLen(t) > 0
  {
  }

  // ---------------------------------------------------------------------
  // VariableParser = /\[[^\]]+\]|[\w\-]+\??/
  // ---------------------------------------------------------------------

  /** A bracketed lookup, `[` then at least one character other than `]`, then `]`. */
  predicate IsBracketSegment(p: string) {
    && |p| >= 3
    && IsOpenBracket(p[0])
    && IsCloseBracket(p[|p| - 1])
    && forall k | 1 <= k < |p| - 1 :: !IsCloseBracket(p[k])
  }

  /** A plain segment: word and hyphen characters; never a dot. */
  predicate IsPlainSegment(p: string) {
    || (|p| >= 1 && AllSegmentChars(p))
    || (|p| >= 2 && p[|p| - 1] == '?' && AllSegmentChars(p[..|p| - 1]))
  }

  /** The language of VariableParser. */
  predicate IsPathSegment(p: string) {
    IsBracketSegment(p) || IsPlainSegment(p)
  }

  /** VariableParser at the start of `t`. */
  function PathSegmentLen(t: string): (n: nat)
    ensures n <= |t|
    ensures n > 0 ==> IsPathSegment(Prefix(t, n))
  {
    if t != [] && IsOpenBracket(t[0]) then
      var k := IndexOf(t[1..], CloseBracket);
      if 0 < k < |t| - 1 then
        assert t[..k + 2] == [t[0]] + t[1..][..k] + [t[k + 1]];
        k + 2
      else 0
    else
      var w := SegmentRunLen(t);
      if w == 0 then 0
      else if w < |t| && t[w] == '?' then
        assert t[..w + 1][..w] == t[..w];
        w + 1
      else w
  }

  /** `markup.scan(VariableParser)`: the lookup path of a variable. */
  function ScanPath(t: string): (r: seq<string>)
    ensures forall k | 0 <= k < |r| :: IsPathSegment(r[k])
    decreases |t|
  {
    if t == [] then []
    else
      var n := PathSegmentLen(t);
      if n == 0 then ScanPath(t[1..]) else [t[..n]] + ScanPath(t[n..])
  }

  /** The text of a path: plain segments after the first are joined by `.`, bracketed ones are appended. */
  function PathText(segs: seq<string>): (t: string)
    decreases |segs|
  {
    if segs == [] then []
    else if |segs| == 1 then segs[0]
    else segs[0] + (if IsBracketSegment(segs[1]) then [] else ".") + PathText(segs[1..])
  }

  /** On `seg + rest`, the matcher stops exactly at the end of `seg`. */
  lemma SegmentThenRest(seg: string, rest: string)
    requires IsPathSegment(seg)
    requires rest == [] || IsPathSeparator(rest[0])
    ensures PathSegmentLen(seg + rest) == |seg|
  {
    var t := seg + rest;
    assert t[..|seg|] == seg;
    if IsBracketSegment(seg) {
      assert forall i | 0 <= i < |seg| - 2 :: t[1..][i] == seg[i + 1];
      assert IsCloseBracket(t[1..][|seg| - 2]);
    } else {
      var core := if seg[|seg| - 1] == '?' && AllSegmentChars(seg[..|seg| - 1]) && |seg| >= 2 then |seg| - 1 else |seg|;
      assert AllSegmentChars(t[..core]);
      assert core == |t| || !IsSegmentChar(t[core]);
      SegmentRunLenUnique(t, core);
    }
  }

  lemma {:induction false} SegmentRunLenUnique(t: string, n: nat)
    requires n <= |t| && AllSegmentChars(t[..n]) && (n == |t| || !IsSegmentChar(t[n]))
    ensures SegmentRunLen(t) == n
    decreases |t|
  {
    if n > 0 {
      assert t[1..][..n - 1] == t[..n][1..];
      assert n - 1 == |t[1..]| || t[1..][n - 1] == t[n];
      SegmentRunLenUnique(t[1..], n - 1);
    }
  }

  /** The scan takes `seg` whole and goes on with what follows it. */
  lemma ScanPathCons(seg: string, rest: string)
    requires IsPathSegment(seg)
    requires rest == [] || IsPathSeparator(rest[0])
    ensures ScanPath(seg + rest) == [seg] + ScanPath(rest)
  {
    SegmentThenRest(seg, rest);
    var t := seg + rest;
    assert t[..|seg|] == seg;
    assert t[|seg|..] == rest;
  }

  /** A dot is skipped by the scan. */
  lemma ScanPathDot(tail: string)
    ensures ScanPath("." + tail) == ScanPath(tail)
  {
    assert ("." + tail)[1..] == tail;
  }

  /** Scanning the text of a path gives the path back. */
  lemma {:induction false} ScanPathText(segs: seq<string>)
    requires forall k | 0 <= k < |segs| :: IsPathSegment(segs[k])
    ensures ScanPath(PathText(segs)) == segs
    decreases |segs|
  {
    if |segs| == 1 {
      ScanPathCons(segs[0], []);
      assert segs[0] + [] == segs[0];
    } else if |segs| > 1 {
      var tail := PathText(segs[1..]);
      ScanPathText(segs[1..]);
      PathTextStart(segs[1..]);
      var rest: string := if IsBracketSegment(segs[1]) then tail else "." + tail;
      assert ScanPath(rest) == segs[1..] by {
        if !IsBracketSegment(segs[1]) {
          ScanPathDot(tail);
        }
      }
      assert PathText(segs) == segs[0] + rest;
      ScanPathCons(segs[0], rest);
      assert segs == [segs[0]] + segs[1..];
    }
  }

  /** A path's text is non-empty and starts with its first segment. */
  lemma PathTextStart(segs: seq<string>)
    requires |segs| > 0 && forall k | 0 <= k < |segs| :: IsPathSegment(segs[k])
    ensures |PathText(segs)| > 0
    ensures IsBracketSegment(segs[0]) ==> IsOpenBracket(PathText(segs)[0])
  {
    if |segs| > 1 {
      assert PathText(segs)[0] == segs[0][0];
    }
  }
}
