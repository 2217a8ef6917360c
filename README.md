# twig: the set tag, the template grammar and the drop allow-list

A Dafny model of three pieces of the twig template engine, a Ruby engine derived from Liquid.

- **The `set` tag** (`lib/twig/tags/set_tag.rb`).
  - At parse time it sorts the tag's markup into three outcomes:
    - the inline form `name = expr`;
    - the block form `name … {% endset %}`;
    - the `errors.syntax.set` syntax error.
  - The block form then consumes its body up to `endset`.
  - At render time it writes the value into the base frame `context.scopes.last` and adds the value's cost to the assignment score. It outputs nothing.
  - Modules: `SetTag` for the tag and `Contexts` for the scope stack, a `Context` class with a sequence of frames and a counter.
- **The template grammar** (`lib/twig.rb`).
  - The regular expressions are written as hand-made recognisers: a `…Len(t)` function returns the length of the match at the start of `t`, and an unanchored search recurses over suffixes.
  - Module `Grammar` holds the quoted string, quoted fragment, tag attribute, variable signature and variable path segment.
  - Module `TemplateSplit` holds the `TemplateParser` splitter. `Split(source)` cuts the source into literal text, `{% … %}` fragments and `{{ … }}` fragments.
- **The `twig_methods` allow-list** (`lib/twig/module_ex.rb`), module `DropMethods`.
  - The synthesised drop classes become a table: host class → (name → how the drop answers it).
  - `Forward` calls the host method of the same name. `Extension` is a method written by hand into `<Class>::TwigDropClass`.
  - The class `DropRegistry` holds the tables. Its `TwigMethods` loops over the allowed names, as the Ruby loop over `allowed_methods` does.
  - `Lookup` asks one drop for a name. `Resolve` follows a dotted chain of names.

The modules `Wrappers` (Option, Result) and `Values` (the values templates see, including host objects) are shared.

How the regular expressions are read:
- `\w` is ASCII word characters.
- `\s` is space, tab, newline, vertical tab, form feed and carriage return.
- `TagSyntax` is compiled with `/m`, so its `.*` also crosses newlines. The trailing `\s*` after the greedy `(.*)` therefore never takes anything: the source expression is everything after the white space that follows `=`, trailing blanks included.
- `TagSyntax` is unanchored. The match starts at the first position where `signature-run, spaces, '='` matches. At any start, the signature run that precedes white space or `=` is unique, because neither may appear inside a run. So the greedy scan gives the regex's own answer.
- `BlockSyntax` takes the longest signature run at the first position where one starts.
- `QuotedFragment` is an ordered alternation. When a quoted string matches at the start, it is the fragment, even if more fragment characters follow (`'a'b` gives `'a'`).

## Model

| member | source | states |
|---|---|---|
| Grammar.SpaceLen | lib/twig.rb:36 | the run of `\s` characters at the start of the text: all white space, and the next character (if any) is not |
| Grammar.SpaceLenUnique | lib/twig.rb:36 | that white-space run is the only one with these properties: any length with them equals `SpaceLen` |
| Grammar.IndexOf | lib/twig.rb:34 | the first occurrence of a character: it is there, and no earlier position holds it |
| Grammar.QuotedStringLen | lib/twig.rb:34 | a positive result is a quoted string: an opening quote, no occurrence of that quote inside, the same quote at the end |
| Grammar.QuotedStringPrefixUnique | lib/twig.rb:34 | a prefix is a quoted string if and only if its length is `QuotedStringLen`: the match closes at the first repeat of the opening quote and nowhere else |
| Grammar.FragmentUnitLen | lib/twig.rb:35 | one repetition of the group `(?:[^\s,\|'"]\|QuotedString)`, within the text; `FragmentUnitOfPrefix` pins its length |
| Grammar.FragmentUnitsLen | lib/twig.rb:35 | the greedy `+` of that group, within the text; its language and maximality are `FragmentUnitsLenSound` and `FragmentUnitsLongest` |
| Grammar.FragmentUnitsLenSound | lib/twig.rb:35 | what the greedy repetition takes, when it takes anything, is a run of units, each a character other than white space, `,`, `\|` or a quote, or an embedded quoted string |
| Grammar.FragmentUnitsLongest | lib/twig.rb:35 | no longer prefix is such a run: the `+` repetition is greedy and takes the maximal run |
| Grammar.QuotedFragmentLen | lib/twig.rb:35 | the match is a quoted string or a run of units, and there is none exactly when the text is empty or starts with a character that cannot open either |
| Grammar.QuotedFragmentPrefersString | lib/twig.rb:35 | the alternation is ordered: when the text starts with a quoted string, the match is exactly that string, whatever follows it |
| Grammar.QuotedFragmentLongest | lib/twig.rb:35 | when no prefix is a quoted string, no prefix longer than the match is in the `QuotedFragment` language: the match is the longest run of units |
| Grammar.QuotedThenPlain | lib/twig.rb:35 | `'a'b` matches the three characters `'a'` |
| Grammar.QuotedFragmentOpens | lib/twig.rb:35 | wherever a text of the `QuotedFragment` language starts, the matcher finds a match, and the text does not start with white space |
| Grammar.AttributeAt | lib/twig.rb:36 | a match has the shape of `TagAttributes`: word-character key, white space, `:`, white space, quoted fragment; conversely, when the text starts with any `TagAttributes` match, the one found has the same key, the same colon and the same start of the value |
| Grammar.ScanAttributes | lib/twig.rb:36 | every attribute found has a non-empty word-character key and a quoted-fragment value; `ScanAttributesHead` and `ScanAttributesNoMatch` say which are found |
| Grammar.KeysFixed | lib/twig.rb:36 | every `TagAttributes` match at the start of the text ends its key where the greedy `\w+` stops and has its colon right after the white space that follows |
| Grammar.ValuesFixed | lib/twig.rb:36 | with the key and colon fixed, every `TagAttributes` match starts its value where the matcher reads it, after the white space that follows the colon |
| Grammar.ScanAttributesHead | lib/twig.rb:36 | a `TagAttributes` match at the start of the markup is the first attribute the scan reports, with the key it spells, and the scan goes on right after the value that match ends with |
| Grammar.ScanAttributesSkip | lib/twig.rb:36 | a text starting with a character that is not a word character yields what the text after it yields |
| Grammar.ScanAttributesNoMatch | lib/twig.rb:36 | where no `TagAttributes` match starts at the first character, the scan moves on by that one character |
| Grammar.SignatureUnitLen | lib/twig.rb:29 | one `VariableSignature` unit: a name character, optionally with `(` before it and `)` after it, at most three characters |
| Grammar.RunSplit | lib/twig.rb:29 | a signature run begins with a unit and continues with a run or ends |
| Grammar.SignatureRunUnits | lib/twig.rb:29 | a text is a run of `VariableSignature+` if and only if it is one unit followed by the empty text or by another run |
| Grammar.SignatureRunLen | lib/twig.rb:29 | a positive result is a signature run at the start of the text |
| Grammar.SignatureRunEndsAtStop | lib/twig.rb:29 | a run followed by the end or by a character that cannot continue a run is exactly the one `SignatureRunLen` finds |
| Grammar.SignatureRunLongest | lib/twig.rb:29 | no longer prefix is a run: `SignatureRunLen` is the greedy maximal match |
| Grammar.SignatureRunStart | lib/twig.rb:29 | a run starts with `(` or with a name character |
| Grammar.SignatureRunHasNameChar | lib/twig.rb:29 | a run holds a name character in its first or second position |
| Grammar.NameCharStartsRun | lib/twig.rb:29 | any name character (word character, `-`, `.`, `[`, `]`) starts a run |
| Grammar.WordRunLen | lib/twig.rb:36 | the maximal run of `\w` characters at the start |
| Grammar.WordRunLenUnique | lib/twig.rb:36 | that run is the only one ending at a non-word character |
| Grammar.SegmentRunLen | lib/twig.rb:30 | the maximal run of `VariableSegment` characters (word characters and `-`) at the start |
| Grammar.SegmentRunLenUnique | lib/twig.rb:30 | that run is the only one ending at a non-segment character |
| Grammar.PathSegmentLen | lib/twig.rb:40 | a positive result is a `VariableParser` segment: `[` … `]` with no `]` inside, or a word/hyphen run with an optional `?` |
| Grammar.SegmentThenRest | lib/twig.rb:40 | a segment followed by `.`, `[` or the end is matched whole and no further |
| Grammar.ScanPath | lib/twig.rb:40 | scanning a variable name yields only path segments; dots are never part of one |
| Grammar.ScanPathCons | lib/twig.rb:40 | scanning a segment followed by `.`, `[` or the end yields that segment, then the scan of the rest |
| Grammar.ScanPathDot | lib/twig.rb:40 | a separating dot yields no segment |
| Grammar.ScanPathText | lib/twig.rb:30-40 | writing segments with dots, or brackets, in between and scanning the text gives the same segments back |
| Grammar.PathTextStart | lib/twig.rb:40 | the written path is non-empty and starts with `[` when its first segment is bracketed |
| TemplateSplit.FragmentStartIndex | lib/twig.rb:37 | the first `AnyStartingTag` position, `{{` or `{%`, or the end of the text |
| TemplateSplit.FragmentStartIndexLeftmost | lib/twig.rb:37 | no `{{` or `{%` starts before that position |
| TemplateSplit.FragmentStartIndexIs | lib/twig.rb:37 | any position where `{{` or `{%` starts, with none before it, is the one `FragmentStartIndex` finds |
| TemplateSplit.TagEndIndex | lib/twig.rb:28 | the first `%}` in the text: none before it |
| TemplateSplit.CloseBraceIndex | lib/twig.rb:32-33 | the first `}` in the text: none before it |
| TemplateSplit.FragmentLen | lib/twig.rb:38-39 | every fragment match covers at least the opening two characters and stays inside the text |
| TemplateSplit.FragmentLenShape | lib/twig.rb:27-39 | the match is a tag fragment up to the first `%}`, or a variable fragment up to the first `}` (taking a second `}` when one follows), or a bare `{%` or `{{` when no closing delimiter follows |
| TemplateSplit.FirstCut | lib/twig.rb:39 | the first cut splits the text into literal, fragment and rest, which glue back to the text, and the fragment is at least two characters long |
| TemplateSplit.Pieces | lib/twig.rb:39 | Ruby's raw split always has at least one piece |
| TemplateSplit.ConcatAppend | lib/twig.rb:39 | gluing two piece lists is gluing each and joining |
| TemplateSplit.PiecesConcat | lib/twig.rb:39 | the raw pieces glue back to the source exactly |
| TemplateSplit.PiecesWellFormed | lib/twig.rb:37-39 | the raw pieces alternate between literals holding no `{{`/`{%` and fragment matches, starting and ending with a literal |
| TemplateSplit.TrimEnds | lib/twig.rb:39 | drops an empty last piece and an empty first piece; its effect on well-formed pieces is `SplitWellFormed` and `SplitOfWritten` |
| TemplateSplit.Split | lib/twig.rb:39 | `TemplateParser` splitting followed by the tokenizer dropping a leading empty piece; specified by `SplitConcat`, `SplitWellFormed` and `SplitOfWritten` |
| TemplateSplit.SplitConcat | lib/twig.rb:39 | the split loses no character: its pieces glue back to the source |
| TemplateSplit.SplitWellFormed | lib/twig.rb:37-39 | the split alternates literals and fragments, has no empty piece at either end, and is empty exactly when the source is |
| TemplateSplit.SplitPlainText | lib/twig.rb:39 | text without `{{` and `{%` splits into itself as a single literal |
| TemplateSplit.SplitBlank | test/unit/block_unit_test.rb:6-9 | `"  "` splits into `["  "]` |
| TemplateSplit.FirstCutIs | lib/twig.rb:39 | the first cut is at the leftmost fragment start, with that fragment's match length |
| TemplateSplit.PiecesOfWritten | lib/twig.rb:39 | pieces written as literals and closed fragments split back into the same pieces |
| TemplateSplit.SplitOfWritten | lib/twig.rb:39 | the split of such a text is those pieces, less an empty first or last literal |
| TemplateSplit.SplitOfWrittenWhole | lib/twig.rb:39 | with non-empty first and last literals, the split gives back exactly the pieces written |
| TemplateSplit.SplitThree | lib/twig.rb:39 | literal, closed fragment, literal splits into those three, their empty ends removed |
| TemplateSplit.SplitVariableBeginning | test/unit/block_unit_test.rb:11-16 | `"{{funk}}  "` splits into a variable and a literal |
| TemplateSplit.SplitVariableEnd | test/unit/block_unit_test.rb:18-23 | `"  {{funk}}"` splits into a literal and a variable |
| TemplateSplit.SplitVariableMiddle | test/unit/block_unit_test.rb:25-31 | `"  {{funk}}  "` splits into literal, variable, literal |
| TemplateSplit.SplitManyVariables | test/unit/block_unit_test.rb:33-38 | `"  {{funk}} {{so}} {{brother}} "` splits into seven alternating pieces |
| TemplateSplit.SplitWithBlock | test/unit/block_unit_test.rb:40-44 | `"  {% comment %} {% endcomment %} "` splits into literal, tag, literal, tag, literal |
| Contexts.FindIn | test/integration/drop_test.rb:195-199 | a name is found if and only if some frame binds it |
| Contexts.AssignLast | lib/twig/tags/set_tag.rb:32 | `context.scopes.last[@to] = val` on the frame list; specified by `AssignLastFrames` and `FindAfterAssign` |
| Contexts.FindInInnermost | test/integration/drop_test.rb:195-199 | the innermost frame binding a name decides its value |
| Contexts.AssignLastFrames | lib/twig/tags/set_tag.rb:32 | writing into `scopes.last` keeps the number of frames, leaves every other frame unchanged and binds the name in the last frame, keeping its other names |
| Contexts.AssignLastTwice | test/integration/set_block_test.rb:20-34 | of two writes to the same name, the last one wins |
| Contexts.AssignLastUnderPush | test/integration/drop_test.rb:207-212 | a write under a pushed frame leaves the pushed frame alone and writes the base frame |
| Contexts.FindInAppend | test/integration/drop_test.rb:195-199 | a lookup through inner plus outer frames tries the inner ones first |
| Contexts.FindAfterAssign | lib/twig/tags/set_tag.rb:32 | after the write, the name reads back as the written value unless an inner frame shadows it |
| Contexts.FindOtherName | lib/twig/tags/set_tag.rb:32 | the write changes the lookup of no other name |
| Contexts.SetSurvivesPop | test/integration/set_block_test.rb:36-49 | a value set inside a loop frame is still found after that frame is popped |
| Contexts.Context.constructor | test/integration/drop_test.rb:195-199 | a fresh context has only the base frame and a zero score |
| Contexts.Context.Push | test/integration/drop_test.rb:195-199 | pushing adds an empty innermost frame and changes nothing else |
| Contexts.Context.Pop | test/integration/drop_test.rb:195-199 | popping removes the innermost frame, but never the base frame, and says whether it did |
| Contexts.Context.Find | lib/twig/tags/set_tag.rb:32 | the context finds a name if and only if some frame binds it |
| Contexts.Context.AssignBase | lib/twig/tags/set_tag.rb:32 | the new frames are the old ones with the name bound in the base frame; the score is unchanged |
| Contexts.Context.IncrementUsedResources | lib/twig/tags/set_tag.rb:33 | the score grows by the value's cost; the frames are unchanged |
| SetTag.Unspaced | lib/twig/tags/set_tag.rb:12 | what follows `=` once the `\s*` is taken: no longer, and it does not start with white space |
| SetTag.UnspacedSplit | lib/twig/tags/set_tag.rb:12 | the text is its leading white space followed by `Unspaced` |
| SetTag.TagCutAt | lib/twig/tags/set_tag.rb:12 | a cut at a fixed start is a signature run, white space and an `=` |
| SetTag.TagSyntaxAtSound | lib/twig/tags/set_tag.rb:12 | a `TagSyntax` match at a fixed start has the shape `name ws = ws expr`, with the expression not starting with white space |
| SetTag.TagSyntaxAtComplete | lib/twig/tags/set_tag.rb:12 | every text of that shape matches, with that name and expression |
| SetTag.TagSyntaxAt | lib/twig/tags/set_tag.rb:12 | `TagSyntax` at a fixed start, giving target and source; specified by `TagSyntaxAtSound` and `TagSyntaxAtComplete` |
| SetTag.TagSyntaxHasEquals | lib/twig/tags/set_tag.rb:12 | a match contains an `=` |
| SetTag.TagSyntaxIndex | lib/twig/tags/set_tag.rb:12-17 | where the unanchored `TagSyntax` match starts, if there is one: it matches there |
| SetTag.TagSyntaxIndexLeftmost | lib/twig/tags/set_tag.rb:12-17 | and nowhere earlier |
| SetTag.BlockSyntaxIndex | lib/twig/tags/set_tag.rb:13-22 | where the unanchored `BlockSyntax` match starts: a signature run starts there |
| SetTag.BlockSyntaxIndexLeftmost | lib/twig/tags/set_tag.rb:13-22 | and none starts earlier |
| SetTag.SyntaxErrIff | lib/twig/tags/set_tag.rb:17-27 | the markup is a syntax error if and only if it holds no name character, and the error key is `errors.syntax.set` |
| SetTag.ParseSetMarkup | lib/twig/tags/set_tag.rb:15-28 | the three outcomes of `initialize`; specified by `SyntaxErrIff`, `InlineWhenShape`, `InlineSound` and `BlockSound` |
| SetTag.InlineWhenShape | lib/twig/tags/set_tag.rb:17-21 | markup with a `name ws = ws expr` part anywhere is the inline form |
| SetTag.InlineSound | lib/twig/tags/set_tag.rb:17-21 | an inline result is a `name ws = ws expr` part of the markup, with that name as the target and that expression as the source |
| SetTag.BlockSound | lib/twig/tags/set_tag.rb:13-24 | a block target is the longest signature run at the first place one starts, with no name character before it |
| SetTag.NameCharFindsBlock | lib/twig/tags/set_tag.rb:13 | a `BlockSyntax` match starts at or before any name character |
| SetTag.RunHasNameChar | lib/twig/tags/set_tag.rb:13 | a signature run holds a name character |
| SetTag.TagIndexAfterLead | lib/twig/tags/set_tag.rb:12 | leading characters that cannot start a run are skipped by the unanchored match |
| SetTag.InlineOfShape | lib/twig/tags/set_tag.rb:12-21 | `lead name ws = ws expr` classifies as `Inline(name, expr)` |
| SetTag.NoEqualsNoTag | lib/twig/tags/set_tag.rb:12 | markup without `=` never matches `TagSyntax` |
| SetTag.BlockOfShape | lib/twig/tags/set_tag.rb:13-24 | `lead name rest` without `=` classifies as `Block(name)`; surrounding quotes are skipped |
| SetTag.NameCharsRun | lib/twig.rb:29 | a non-empty text of name characters is a signature run |
| SetTag.HyphenatedInline | test/integration/set_test.rb:6-14 | `this-thing = 'Print this-thing' ` is the inline form with target `this-thing` |
| SetTag.PlainInline | test/integration/set_test.rb:16-24 | `foo = values ` is the inline form with target `foo` and source `values ` |
| SetTag.QuotedBlock | test/integration/set_block_test.rb:6-8 | `'var' ` is the block form with target `var` |
| SetTag.HyphenatedBlock | test/integration/set_block_test.rb:10-18 | `this-thing ` is the block form with target `this-thing` |
| SetTag.MissingEqualsBlock | test/integration/set_test.rb:32-36 | `foo not values ` has no `=`, so it is the block form with target `foo` |
| SetTag.QuotesOnlyError | lib/twig/tags/set_tag.rb:25-27 | markup of white space and quotes only is the `errors.syntax.set` error |
| SetTag.ParseSet | lib/twig/tags/set_tag.rb:41-43 | a parse consumes tokens and never adds any |
| SetTag.ParseForm | lib/twig/tags/set_tag.rb:41-43 | `parse` once the markup is classified: the inline form consumes nothing, the block form parses its body; it never adds tokens |
| SetTag.ParseBody | lib/twig/tags/set_tag.rb:42 | a body parse consumes at least the closing `endset` |
| SetTag.ParseSetConsumes | lib/twig/tags/set_tag.rb:41-43 | a successful parse returns a well-formed node, and the input is that node's tokens followed by the returned rest |
| SetTag.ParseFormConsumes | lib/twig/tags/set_tag.rb:41-43 | the same once the markup has been classified |
| SetTag.ParseBodyConsumes | lib/twig/tags/set_tag.rb:42 | a successful body parse returns well-formed nodes, and the input is their tokens, the `endset` tag and the rest |
| SetTag.ParseSetOfTokens | lib/twig/tags/set_tag.rb:41-43 | parsing a well-formed node's tokens gives that node back and leaves the following tokens untouched |
| SetTag.ParseFormOfTokens | lib/twig/tags/set_tag.rb:41-43 | the same for classified markup |
| SetTag.ParseBodyOfTokens | lib/twig/tags/set_tag.rb:42 | parsing a well-formed body's tokens and its `endset` gives that body back |
| SetTag.ParseSetForms | lib/twig/tags/set_tag.rb:17-43 | the inline form consumes no tokens; markup without a name character fails with `errors.syntax.set`; a block form that parses binds the same target and consumes tokens |
| SetTag.BodyNeedsEnd | lib/twig/tags/set_tag.rb:42 | a body parse succeeds only if some token is `endset` |
| SetTag.BlockNeverClosed | lib/twig/tags/set_tag.rb:41-43 | the block form fails when no `endset` follows |
| SetTag.FlatBodyNeverClosed | lib/twig/tags/set_tag.rb:42 | a body of other tokens with no `endset` fails with `errors.syntax.tag_never_closed` |
| SetTag.FlatBody | lib/twig/tags/set_tag.rb:42 | a body without nested sets ends at the first `endset`: the tokens before it are the body, its markup is kept, and the tokens after it are left |
| SetTag.FormErrors | lib/twig/tags/set_tag.rb:26-42 | of the errors this model raises, a classified parse fails only with the set error or the never-closed error |
| SetTag.BodyErrors | lib/twig/tags/set_tag.rb:26-42 | of the errors this model raises, a body parse fails only with one of those two errors |
| SetTag.ParseSetErrors | lib/twig/tags/set_tag.rb:26-42 | of the errors this model raises, parsing a set tag fails only with `errors.syntax.set` or `errors.syntax.tag_never_closed` |
| SetTag.MissingEqualsNeverClosed | test/integration/set_test.rb:32-36 | `{% set foo not values %}.` fails with the never-closed error for the `set` tag |
| SetTag.QuotedBlockBody | test/integration/set_block_test.rb:6-8 | `{% set 'var' %}test string{% endset %}{{var}}` parses to a block binding `var` with body `test string`, leaving `{{var}}` |
| SetTag.RenderSet | lib/twig/tags/set_tag.rb:30-35 | render returns `""`; starting from the context as rendering the body left it, it binds the target in the base frame only to the rendered body (block form) or to the evaluated source (inline form), and raises the score by that value's cost |
| SetTag.Blank | lib/twig/tags/set_tag.rb:37-39 | `blank?` answers true for both forms of the node, independently of what `render` returns |
| SetTag.SetThenCopy | test/integration/set_block_test.rb:41-42 | one loop round, `{% set first %}…{% endset %}{% set second = first %}`, binds both names to the body |
| SetTag.AssigningFromSet | test/integration/set_block_test.rb:36-49 | after the loop over `1..3`, `first` and `second` both read `3` |
| DropMethods.WithForwardsEntries | lib/twig/module_ex.rb:50-58 | after `twig_methods`, the drop answers the old names and the allowed names; every allowed name forwards, and every other entry is kept |
| DropMethods.WithForwardsStep | lib/twig/module_ex.rb:54-58 | one more round of the loop defines one more forwarder |
| DropMethods.WithForwards | lib/twig/module_ex.rb:54-58 | the table the loop over `allowed_methods` builds; specified by `WithForwardsEntries` |
| DropMethods.ToTwig | lib/twig/module_ex.rb:46-49 | an object has a drop if and only if its own class ran `twig_methods`; the drop's class is `<Class>::TwigDropClass` and it wraps exactly that object |
| DropMethods.AnsweredOnlyListed | lib/twig/module_ex.rb:54-58 | a name is unanswered if and only if the drop does not respond to it; only allowed names and drop-class methods are ever answered |
| DropMethods.ForwardIsHostValue | lib/twig/module_ex.rb:55-57 | an allowed name answers exactly the host method's result, or an error when the host has no such method |
| DropMethods.Lookup | lib/twig/module_ex.rb:54-58 | asking a drop for a name; specified by `AnsweredOnlyListed` and `ForwardIsHostValue` |
| DropMethods.RespondsTo | lib/twig/module_ex.rb:54-58 | the drop responds to exactly the names in its class's table; used by `AnsweredOnlyListed` and `TestRespondsTo` |
| DropMethods.Noninterference | lib/twig/module_ex.rb:54-58 | two objects of the same class that agree on their allowed methods give the same answer for every name that is not a hand-written extension, whatever their other methods hold |
| DropMethods.ResolveStep | lib/twig/module_ex.rb:40-41 | an answered chain goes through the drop of each object on the way: the first name is one that drop responds to, and the rest is resolved from its answer |
| DropMethods.Resolve | lib/twig/module_ex.rb:40-41 | following a chain of names through drops; specified by `ResolveStep` and `ResolveAppend` |
| DropMethods.ResolveAppend | lib/twig/module_ex.rb:40-41 | resolving a chain `p + q` is resolving `p`, then `q` from where `p` ended |
| DropMethods.DropRegistry.constructor | lib/twig/module_ex.rb:43-62 | no class has a drop at first |
| DropMethods.DropRegistry.TwigMethods | lib/twig/module_ex.rb:45-60 | the class's drop table becomes its old table (or an empty one) with every allowed name forwarding; no other class changes |
| DropMethods.DropRegistry.DefineExtension | lib/twig/module_ex.rb:21-28 | a hand-written drop method joins the surface of an existing drop class, and nothing changes when the class has none |
| DropMethods.ForwardsOfTwo | lib/twig/module_ex.rb:54-58 | `twig_methods :x, :y` on a new class defines exactly those two forwarders |
| DropMethods.BuildTestRegistry | test/unit/module_ex_unit_test.rb:3-37 | the test's three classes and one extension build the expected tables |
| DropMethods.TestAllowedA | test/unit/module_ex_unit_test.rb:80 | `a.allowedA` gives `allowedA` |
| DropMethods.TestChainedB | test/unit/module_ex_unit_test.rb:81 | `a.chainedB.allowedB` gives `allowedB` |
| DropMethods.TestChainedC | test/unit/module_ex_unit_test.rb:82 | `a.chainedB.chainedC.allowedC` gives `allowedC` |
| DropMethods.TestAnotherAllowedC | test/unit/module_ex_unit_test.rb:83 | the hand-written `another_allowedC` is reached through the chain |
| DropMethods.TestRestricted | test/unit/module_ex_unit_test.rb:84-85 | `restricted`, `unknown` and the host's own `restrictedA` are not answered |
| DropMethods.TestRespondsTo | test/unit/module_ex_unit_test.rb:66-77 | the drops respond to their allowed names and extension, and not to `restricted` |

## Left out

- The lexer, `block.rb`, `context.rb`, `drop.rb`, `template.rb` and `variable.rb` are not part of this model.
  - The body protocol of a block is modelled in a minimal form on abstract tokens: nested `set` blocks nest, the first `endset` at depth zero closes, and the other tokens are kept as they are.
  - Other block tags inside the body are not nested.
  - The never-closed error is the untranslated key `errors.syntax.tag_never_closed`; the message it stands for names the tag, `set`.
  - Dropping a leading empty piece in `Split` stands in for that step of the tokenizer.
- The `Variable` expression parser and the filter chain of inline `set` are not modelled. The source expression is kept as text. At render time, the evaluated value (inline) or the rendered body text (block) is a parameter of `RenderSet`.
- `increment_used_resources`: its cost function is a parameter of `Context`, and the resource ceiling and its error are not modelled.
- Locale translation (`options[:locale].t`): errors are the untranslated keys.
- SetTag.RenderSet: the `line_number` given to the `Variable` is not modelled, since it only annotates error messages.
- SetTag.RenderSet: in the block form, `super` renders the body in the same context before the write (`lib/twig/tags/set_tag.rb:31`), and the body's own `set` nodes write the base frame and raise the score too. The contract takes `ctx` as the context as that rendering left it: the body's writes and costs are outside it.
- SetTag.FormErrors: the model raises only `errors.syntax.set` and `errors.syntax.tag_never_closed`. It does not raise the strict-mode `SyntaxError` of `Variable.new` for a malformed inline expression (test/integration/set_test.rb:38-47), nor the `Unknown tag` error for an unregistered tag in a block body (test/integration/error_handling_test.rb:152-167), because the expression parser and the tag registry are outside this model.
- SetTag.BodyErrors: the same gap for the body: an unregistered tag inside a `set` block is kept as a raw token instead of raising `Unknown tag`.
- SetTag.ParseSetErrors: the same gap: the strict-mode expression error and the unknown-tag error of the body are never raised by the model.
- DropMethods.ToTwig: host-class inheritance and module inclusion are not modelled. In Ruby, `to_twig` (module_ex.rb:47-49) is inherited by subclasses and by classes including a module that ran `twig_methods`, whose instances then get that ancestor's `TwigDropClass`; in the model a `HostObject` has one class and gets a drop only when that class is in the table.
- The behaviour of the `Drop` base class (`before_method`, taint checks, `to_s`) and rendering an unanswered name as the empty string. `Lookup` returns `Unanswered` instead, and a lookup on a value that is not a host object with a drop gives `Unanswered`.
- Ruby's runtime class synthesis (`eval`, `define_method`, `send`, `class_eval`) is replaced by the method table of `DropRegistry`.
  - Inheritance from `Twig::Drop` and a superclass mismatch on reopening are not modelled.
- `DropMethods.DropRegistry.DefineExtension`: in Ruby, writing `class X::TwigDropClass` before `twig_methods` makes an ordinary class that a later `twig_methods` fails to reopen with a different superclass. The model refuses such an extension instead of modelling that failure.
- The `cache_classes` flag and the `require` list of `lib/twig.rb` are configuration and loading only.
- `FilterSeparator`, `ArgumentSeparator`, `FilterArgumentSeparator` and `VariableAttributeSeparator` are used only by the variable and filter parser, which is outside this model.
- `lib/twig/register_in_tilt.rb`, the performance script and the test helper contain no engine logic.
- Unicode: `\w` and `\s` are the ASCII classes; no encoding is modelled.
