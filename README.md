# ReqIF requirement parser, modelled in Dafny

This project models `ReqifParser` (test/ReqifParser.cpp, test/ReqifParser.h). The class reads a ReqIF
(Requirements Interchange Format) document and builds a requirement store from it:

- a record map from identifier to `ReqData` (identifier, name, description, sort number, level, parent);
- a parent map from child to parent;
- a list of top-level requirements;
- the ReqIF namespace URI that element matching compares against.

The XML input is a sequence of tokens produced by a namespace-aware streaming reader: start tags with
namespace, local name and attributes, end tags, character data, ignorable tokens, and a token that marks
malformed input. A cursor moves over the sequence and carries an error flag. The reader stops for good at
the end of the input or once the error is raised. Neither the reader's tokenisation nor its
well-formedness checking is modelled; the token sequence is the input.

The model follows the source's own form:

- **Imperative parts.** The parser object is the class `Parser.ReqifParser`, whose fields the methods
  update in place. The streaming reader is the class `Xml.XmlReader`, shared by the sub-parsers just as
  the source shares one `QXmlStreamReader`. Every loop of the source is a `while` or `for` loop there,
  proved equal to a specification function:
  - `Parse.ScanLoop` for the document scan;
  - `Hierarchy.HierLoop` for `parseHierarchy`;
  - `Attributes.IntegerAttr` and `Attributes.XhtmlAttr` for the attribute parsers;
  - `Content.XhtmlContent` for `readXhtmlContent`;
  - `Inference.InferLoop` for the inference;
  - `Levels.LevelOf` for `calculateLevel`;
  - `Parse.TopFrom` for `updateTopLevelReqs`.
- **Pure parts.** The sanitiser `cleanHtml` (`Markup.CleanHtml`) and the small queries are functions.
  The string primitives the source takes from its framework are written out in `Text`:
  - trimming;
  - ASCII case-insensitive search;
  - literal replace-all;
  - a decimal `toInt`;
  - the key order of an ordered map.

The lemmas state what the source promises about these functions:

- the level a parent map gives, cycles included;
- the rules of the sort-number inference;
- the contents and order of the top-level list;
- what each hierarchy element does to the store, and what a whole hierarchy tree does;
- that the attribute parsers stop at their own end tag;
- that re-serialised XHTML is the markup of the subtree;
- the sanitiser on line breaks, list items, entities and escaped tags;
- what `parseXml` returns.

Where the system's written description and the code differ, the model follows the code:

- `load` clears the three collections but keeps the namespace (test/ReqifParser.cpp:13-17).
- A REQ-IF root without a namespace sets the fallback ReqIF URI (test/ReqifParser.cpp:41-44). Unnamespaced
  SPEC-OBJECT elements then fail the exact URI comparison (test/ReqifParser.cpp:397), so such a document
  yields no records.
- The sanitiser does not collapse interior whitespace and does not decode `&apos;`. List containers get no
  special treatment.
- The sanitiser is not idempotent (`Markup.NotIdempotent`): `&lt;b&gt;` becomes `<b>` after one pass and the
  empty string after two.
- The only attribute values the code reads are integer and XHTML values. Date, enumeration and boolean
  values are skipped like any other element.

## Model

| member | source | states |
|---|---|---|
| Text.Trim | test/ReqifParser.cpp:335 | the trimmed text starts and ends with a non-whitespace character (ASCII or Unicode separator), or is empty |
| Text.TrimIsSlice | test/ReqifParser.cpp:111 | trimming keeps exactly the slice between the leading and the trailing whitespace, and drops only whitespace |
| Text.TrimSurrounded | test/ReqifParser.cpp:335 | trimming recovers a text from between two runs of whitespace |
| Text.ContainsIgnoreCaseFrom | test/ReqifParser.cpp:230 | the search succeeds iff the pattern occurs at some position up to ASCII case |
| Text.ContainsFrom | test/ReqifParser.cpp:208 | the search succeeds iff the pattern occurs exactly at some position |
| Text.ReplaceAllAbsent | test/ReqifParser.cpp:329-333 | a text in which the pattern does not occur is left unchanged by replace-all |
| Text.ReplaceAllSkip | test/ReqifParser.cpp:329-333 | a prefix free of the pattern's first character is copied unchanged and the rest is replaced |
| Text.ToInt | test/ReqifParser.cpp:231 | the conversion always yields a 32-bit value |
| Text.ToIntRoundTrip | test/ReqifParser.cpp:231 | every non-negative 32-bit value, printed in decimal, converts back to itself |
| Text.ToIntMinus | test/ReqifParser.cpp:231 | a minus sign and decimal digits convert to the negated value when it fits in 32 bits, and to 0 otherwise |
| Text.ToIntNegativeRoundTrip | test/ReqifParser.cpp:231 | every negative 32-bit value, printed in decimal with a minus sign, converts back to itself |
| Text.ToIntOverflow | test/ReqifParser.cpp:231 | a decimal number above the 32-bit maximum converts to 0 |
| Text.ToIntUnderflow | test/ReqifParser.cpp:231 | a negative decimal number below the 32-bit minimum converts to 0 |
| Text.ToIntWithoutDigits | test/ReqifParser.cpp:231 | a text without any decimal digit, the empty text included, converts to 0 |
| Text.ToIntMalformed | test/ReqifParser.cpp:231 | a trimmed text with a non-digit after its first character, or starting with neither a sign nor a digit, converts to 0 |
| Text.LeastExists | test/ReqifParser.h:47 | every non-empty set of keys has a least key in the map's order |
| Text.IncreasingUnique | test/ReqifParser.h:47 | two strictly increasing key sequences with the same elements are equal |
| Text.Enumerate | test/ReqifParser.h:47 | the enumeration of a key set is strictly increasing and holds exactly the keys |
| Text.EnumerateLeast | test/ReqifParser.h:47 | enumeration starts with the least key, followed by the enumeration of the rest |
| Xml.AttrValue | test/ReqifParser.cpp:47 | a non-empty result is the value of an attribute with that name; with no such attribute the result is empty |
| Xml.ElementTextOfChars | test/ReqifParser.cpp:111 | the text of an element holding character data is that data, and reading stops right after its end tag |
| Xml.ElementTextBounded | test/ReqifParser.cpp:111 | reading element text never goes past the first end tag after the cursor |
| Xml.XmlReader.constructor | test/ReqifParser.cpp:27 | a new reader stands before the first token, without error |
| Xml.XmlReader.ReadNext | test/ReqifParser.cpp:35 | delivers the next token, advances by one, and raises the error on malformed input |
| Xml.XmlReader.ReadElementText | test/ReqifParser.cpp:111 | the text read and the new cursor are those of `Xml.ElementText` |
| Records.ReqDescription | test/ReqifParser.cpp:376-382 | the stored description when non-empty, one placeholder for an empty description and another for an unknown identifier |
| Records.PlaceholderNameIsValid | test/ReqifParser.cpp:207-209 | a record named with the sanitiser's empty-markup placeholder is valid |
| Records.MarkedNameIsInvalid | test/ReqifParser.cpp:207-209 | a name that contains the unnamed-requirement marker anywhere makes the record invalid |
| Markup.MatchLength | test/ReqifParser.cpp:322-327 | a match of a tag pattern starts with `<`, ends at the first `>` and stays within the text |
| Markup.ReplacePatternNoMatch | test/ReqifParser.cpp:322-327 | where a pattern matches nowhere, its replacement leaves the text unchanged |
| Markup.ReplacePatternKeepsOut | test/ReqifParser.cpp:322-327 | a character absent from the text and from the replacement stays absent |
| Markup.ReplacePatternSkip | test/ReqifParser.cpp:322-327 | a prefix without `<` is copied unchanged, since every match begins with `<` |
| Markup.StripTagsLeavesNoTag | test/ReqifParser.cpp:327 | after tag stripping no `<` precedes a `>` |
| Markup.CleanHtml | test/ReqifParser.cpp:315-336 | an empty fragment yields the placeholder; every result has no whitespace at either end |
| Markup.NoMarkupUnchanged | test/ReqifParser.cpp:322-327 | a text without `<` passes all six tag rewrites unchanged |
| Markup.PlainTextCleaned | test/ReqifParser.cpp:315-336 | sanitising a fragment without `<` is decoding followed by trimming |
| Markup.NoEntityUnchanged | test/ReqifParser.cpp:329-333 | a text without `&` passes entity decoding unchanged |
| Markup.LineBreakAbsent | test/ReqifParser.cpp:322 | a text without `r` has no line-break tag to rewrite |
| Markup.DivOpenAbsent | test/ReqifParser.cpp:323 | a text without `d` has no `div` opening to rewrite |
| Markup.BreakInDivLayout | test/ReqifParser.cpp:322-326 | the layout rewrites turn `<div>x<br/>y</div>` into a blank line, `x`, a newline and `y` |
| Markup.BreakInDiv | test/ReqifParser.cpp:315-336 | `<div>x<br/>y</div>` sanitises to `x`, a newline and `y` |
| Markup.ListItem | test/ReqifParser.cpp:315-336 | `<li>a</li>` sanitises to a bullet followed by `a` |
| Markup.AmpersandDecoded | test/ReqifParser.cpp:329-333 | `a&amp;b` decodes to `a&b` when `a` and `b` hold no `&` and no `;` |
| Markup.AmpersandInText | test/ReqifParser.cpp:315-336 | plain text with an escaped ampersand sanitises to the text with `&` |
| Markup.DoubleEscapeExample | test/ReqifParser.cpp:329-330 | decoding starts with `&amp;`, so `&amp;lt;` comes out as `<` |
| Markup.BracketsDecoded | test/ReqifParser.cpp:329-333 | `&lt;b&gt;` decodes to the tag `<b>` |
| Markup.EscapedTagDecoded | test/ReqifParser.cpp:315-336 | `&lt;b&gt;` sanitises to `<b>` |
| Markup.DecodedTagStripped | test/ReqifParser.cpp:315-336 | `<b>` sanitises to the empty string |
| Markup.NotIdempotent | test/ReqifParser.cpp:315-336 | sanitising twice differs from sanitising once |
| Content.AttrsTextSnoc | test/ReqifParser.cpp:290-292 | writing attributes one at a time yields the text of the whole attribute list |
| Content.ContentStart | test/ReqifParser.cpp:287-294 | a start tag is written with its attributes and deepens the nesting by one |
| Content.ContentEnd | test/ReqifParser.cpp:296-301 | an end tag that does not close the outermost element is written and rises by one |
| Content.ContentBounded | test/ReqifParser.cpp:283-310 | re-serialising stops no later than the end tag that brings the depth to zero |
| Content.TokensBalanced | test/ReqifParser.cpp:283-301 | the tokens of an XHTML tree are well nested |
| Content.TokensAllBalanced | test/ReqifParser.cpp:283-301 | the tokens of a run of sibling trees are well nested |
| Content.ContentOfTree | test/ReqifParser.cpp:283-310 | re-serialising the tokens of a tree at any positive depth writes exactly its markup and returns to the same depth |
| Content.ContentOfForest | test/ReqifParser.cpp:283-310 | the same for a run of sibling trees |
| Content.XhtmlContentOfValue | test/ReqifParser.cpp:279-313 | the content of THE-VALUE is the markup of its children; reading stops right after its end tag, which is not written |
| Attributes.ApplyInteger | test/ReqifParser.cpp:230-232 | the sort number becomes the converted value exactly when the reference names the sort-number definition; no other field changes |
| Attributes.IntegerRefBounded | test/ReqifParser.cpp:215-228 | the integer parser never reads past the end tag of its own value element |
| Attributes.IntegerValueSetsSortNum | test/ReqifParser.cpp:211-233 | a sort-number reference sets the sort number from THE-VALUE, and the parser stops after the reference |
| Attributes.ApplyXhtml | test/ReqifParser.cpp:269-276 | a name reference sets the sanitised name; otherwise a description reference sets the sanitised description; any other reference changes nothing |
| Attributes.XhtmlRefBounded | test/ReqifParser.cpp:239-252 | the first XHTML loop never reads past the end tag of its own value element |
| Attributes.XhtmlValueBounded | test/ReqifParser.cpp:254-267 | over well-nested content the second XHTML loop never reads past that end tag |
| Attributes.XhtmlRefNested | test/ReqifParser.cpp:239-252 | over well-nested content the first loop meets the end tag, raises the error, or stops before it |
| Attributes.XhtmlAttrBounded | test/ReqifParser.cpp:235-277 | over a well-nested value element the XHTML parser never reads past its end tag |
| Attributes.XhtmlRefOfText | test/ReqifParser.cpp:239-247 | a definition reference is found at once, with its text |
| Attributes.XhtmlValueOfTrees | test/ReqifParser.cpp:254-261 | THE-VALUE holding trees yields their markup and ends after its end tag |
| Attributes.XhtmlValueSetsField | test/ReqifParser.cpp:235-277 | a reference followed by THE-VALUE sets the field the reference names to the sanitised markup, and the parser stops after THE-VALUE |
| Attributes.NameWithoutValue | test/ReqifParser.cpp:254-272 | a name reference without THE-VALUE names the record with the placeholder, which counts as valid |
| Hierarchy.RecordRef | test/ReqifParser.cpp:110-124 | a non-empty child under a parent is linked in the parent map and in an existing record; at the root it joins the top-level list unless already there; an empty child changes nothing |
| Hierarchy.RecordRefExtends | test/ReqifParser.cpp:110-124 | one reference keeps the records up to their parent, removes no link and only extends the top-level list |
| Hierarchy.RecordRefKeeps | test/ReqifParser.cpp:110-124 | one reference keeps records agreeing with the parent map, links non-empty and the top-level list free of repeats |
| Hierarchy.HierLoopKeeps | test/ReqifParser.cpp:103-134 | parsing a hierarchy keeps that invariant |
| Hierarchy.HierLoopExtends | test/ReqifParser.cpp:103-134 | parsing a hierarchy changes records only in their parent, removes no link and only extends the top-level list |
| Hierarchy.HierSkip | test/ReqifParser.cpp:106-133 | a token the loop does not react to is skipped |
| Hierarchy.HierRefStep | test/ReqifParser.cpp:109-110 | a SPEC-OBJECT-REF start tag, whatever its attributes and the case of its name, reads the element's text and records it trimmed, then the level goes on |
| Hierarchy.HierRef | test/ReqifParser.cpp:110-124 | a SPEC-OBJECT-REF holding character data records its trimmed text under the parent and makes it the level's requirement |
| Hierarchy.HierNestedStep | test/ReqifParser.cpp:125-127 | a SPEC-HIERARCHY start tag, whatever its attributes, parses the nested level under the level's requirement, then the level goes on from where the nested one stopped |
| Hierarchy.HierNested | test/ReqifParser.cpp:125-127 | a nested SPEC-HIERARCHY is parsed with the most recent reference as its parent, and the level then goes on |
| Hierarchy.HierStopped | test/ReqifParser.cpp:106 | once the error is raised the loop stops where it stands and changes nothing |
| Hierarchy.HierEnd | test/ReqifParser.cpp:129-132 | the end tag of a SPEC-HIERARCHY ends the level right after it |
| Hierarchy.HierHead | test/ReqifParser.cpp:106-124 | in the layout of `Hierarchy.HTokens` (an OBJECT and a SPEC-OBJECT-REF without attributes, nothing between the tags), the OBJECT wrapper is skipped and the reference is recorded under the parent |
| Hierarchy.HierShellHead | test/ReqifParser.cpp:106-124 | in the layout of `Hierarchy.HTokens`, the head of a hierarchy element, whatever the attributes of its start tag, records its trimmed reference under the parent |
| Hierarchy.HierShellTail | test/ReqifParser.cpp:129-132 | a hierarchy element's own end tag, whatever it holds, ends the level right after it |
| Hierarchy.HierBody | test/ReqifParser.cpp:106-133 | in the layout of `Hierarchy.HTokens`, the children of a hierarchy element, inside a CHILDREN element or not, have their reference meaning under the element's reference |
| Hierarchy.HierWrapped | test/ReqifParser.cpp:106-133 | in the layout of `Hierarchy.HTokens` (CHILDREN tags without attributes, nothing between them and the children), the CHILDREN tags around the children are skipped |
| Hierarchy.HierLeaf | test/ReqifParser.cpp:103-134 | in the layout of `Hierarchy.HTokens`, a hierarchy without nested ones, with any attributes on its start tag and with an empty CHILDREN element or none, records its reference under the parent and stops right after its end tag |
| Hierarchy.HierTree | test/ReqifParser.cpp:103-134 | parsing a whole hierarchy tree, with any attributes and optional CHILDREN elements, has the effect of its reference meaning (each reference under its enclosing one, in document order) and stops right after its end tag |
| Hierarchy.HierForest | test/ReqifParser.cpp:103-134 | in the layout of `Hierarchy.HTokens`, a run of sibling hierarchies inside a level has the effect of their reference meaning under that level's requirement |
| Hierarchy.ParseHierarchyOfTree | test/ReqifParser.cpp:54-56 | a hierarchy directly under SPECIFICATIONS is parsed with no parent and has the effect of its reference meaning |
| Hierarchy.ElementTextOverForest | test/ReqifParser.cpp:110 | reading the text of an element over any well-formed content stops right after its end tag, or raises the error no later |
| Hierarchy.HierOverForest | test/ReqifParser.cpp:105-133 | over any well-formed content the loop comes out at its end with some requirement and store, or raises the error inside it |
| Hierarchy.HierOverTree | test/ReqifParser.cpp:105-133 | the same for one piece of content: text, a comment or an element |
| Hierarchy.HierOverLeaf | test/ReqifParser.cpp:105-133 | character data and comments are skipped |
| Hierarchy.HierOverRef | test/ReqifParser.cpp:109-124 | a SPEC-OBJECT-REF element over any content is recorded and passed, or raises the error inside it |
| Hierarchy.HierOverNestedTree | test/ReqifParser.cpp:125-132 | a nested SPEC-HIERARCHY element over any content is passed, its own end tag closing the nested level, or raises the error inside it |
| Hierarchy.HierOverOtherTree | test/ReqifParser.cpp:105-133 | any other element is passed with its content read at the same level, or raises the error inside it |
| Hierarchy.HierNestedDone | test/ReqifParser.cpp:125-132 | a nested level that came out at the element's end tag is closed by that tag, and the level goes on after it |
| Hierarchy.HierNestedFailed | test/ReqifParser.cpp:105-127 | an error raised in a nested level ends the enclosing level too |
| Hierarchy.HierOtherDone | test/ReqifParser.cpp:105-133 | the tags of an element the loop does not react to are skipped around its content |
| Hierarchy.HierOtherFailed | test/ReqifParser.cpp:105-133 | an error raised inside such an element ends the level |
| Hierarchy.HierLoopBounded | test/ReqifParser.cpp:103-134 | entered after a SPEC-HIERARCHY start tag, whatever its attributes and its well-formed content, the parse returns right after the element's own end tag or raises the error inside the element; nested end tags are consumed by the nested parses |
| Hierarchy.RootIsTopLevel | test/ReqifParser.cpp:118-121 | a root hierarchy with a non-empty reference puts it in the top-level list |
| Hierarchy.TreeKeepsTop | test/ReqifParser.cpp:118-121 | a hierarchy tree only extends the top-level list |
| Hierarchy.ForestKeepsTop | test/ReqifParser.cpp:118-121 | a run of hierarchy trees only extends the top-level list |
| Inference.CandidatesOf | test/ReqifParser.cpp:139-143 | the inference considers exactly the valid records with a positive sort number |
| Inference.InsertBySortNum | test/ReqifParser.cpp:147-148 | insertion into a sorted order keeps it sorted and adds exactly the new key |
| Inference.SortBySortNum | test/ReqifParser.cpp:147-148 | the visiting order is a permutation of the candidates, sorted by sort number |
| Inference.InferStepReqMap | test/ReqifParser.cpp:153-171 | one iteration gives the record the level of its sort number and a parent of none, the last level-1 or the last level-2 identifier |
| Inference.InferStepTop | test/ReqifParser.cpp:155-162 | one iteration adds a level-1 identifier to the top-level list unless it is already there |
| Inference.InferStepParentMap | test/ReqifParser.cpp:163-171 | one iteration links a level-2 or level-3 record in the parent map and leaves it alone for level 1 |
| Inference.InferLoopShape | test/ReqifParser.cpp:152-173 | the loop changes only level and parent, and only of the records it visits |
| Inference.InferLoopLevels | test/ReqifParser.cpp:152-172 | every visited record gets the level of its sort number |
| Inference.InferLoopLast | test/ReqifParser.cpp:150-166 | over a sorted order, the two last-seen identifiers are those of the last level-1 and the last level-2 record |
| Inference.InferLoopParents | test/ReqifParser.cpp:150-172 | over a sorted order, level-1 records get no parent, level-2 records the last level-1 identifier and level-3 records the last level-2 identifier |
| Inference.InferLoopParentMap | test/ReqifParser.cpp:163-171 | the parent map records the same parents for the visited level-2 and level-3 records |
| Inference.InferLoopParentKeys | test/ReqifParser.cpp:163-171 | the parent map gains exactly the visited records above level 1 |
| Inference.InferLoopTop | test/ReqifParser.cpp:155-162 | every visited level-1 record joins the top-level list, which only grows |
| Inference.LastAtGreatest | test/ReqifParser.cpp:150-166 | over a sorted order the last identifier at a level carries the greatest sort number there, and is empty only when the level has no record |
| Inference.InferOrder | test/ReqifParser.cpp:139-148 | the visiting order holds exactly the candidates |
| Inference.InferKeepsOthers | test/ReqifParser.cpp:136-174 | the inference changes records only in level and parent, and leaves non-candidates unchanged |
| Inference.InferLevels | test/ReqifParser.cpp:152-172 | each candidate gets level 1 below 10, level 2 below 100 and level 3 otherwise; no other level changes |
| Inference.InferParents | test/ReqifParser.cpp:150-172 | a level-1 candidate gets no parent; a level-2 or level-3 candidate is linked, in its record and in the parent map, to a candidate one level up with the greatest sort number there, or to the empty identifier when there is none |
| Inference.InferParentsBySort | test/ReqifParser.cpp:147-172 | each candidate's parent is the one its place in the sorted order gives it |
| Inference.InferParentKeys | test/ReqifParser.cpp:163-171 | from an empty parent map, exactly the candidates above level 1 are linked |
| Levels.Walk | test/ReqifParser.cpp:190-204 | the walk ends, on every parent map, at a level between its start and 11 |
| Levels.LevelOf | test/ReqifParser.cpp:185-205 | the level is between 1 and 11, and it is 1 exactly for the empty identifier or one without a parent |
| Levels.WalkAlongChain | test/ReqifParser.cpp:194-202 | the walk from inside a chain of distinct links reports one more than the chain length, capped at ten links |
| Levels.LevelIsChainLength | test/ReqifParser.cpp:185-205 | a requirement with a chain of d distinct parent links has level 1 + min(d, 10) |
| Levels.ChildOfRoot | test/ReqifParser.cpp:185-205 | a requirement directly under a root has level 2 |
| Levels.TwoCycle | test/ReqifParser.cpp:194-197 | two requirements that are each other's parent get level 3 |
| Levels.SelfParent | test/ReqifParser.cpp:194-197 | a requirement that is its own parent gets level 2 |
| Parse.RootNamespace | test/ReqifParser.cpp:41-44 | the namespace is never empty, and it is the root's own namespace whenever the root declares one |
| Parse.Relevel | test/ReqifParser.cpp:88-92 | the level pass keeps every record's identity, name, description and sort number |
| Parse.AttrsKeepIdentity | test/ReqifParser.cpp:57-62 | the attribute parsers change neither the identifier nor the level of the open record |
| Parse.ScanKeeps | test/ReqifParser.cpp:34-75 | the scan stores each record under its own non-empty identifier, at level 1 |
| Parse.TopFromMembers | test/ReqifParser.cpp:176-183 | the list holds exactly the visited valid records without a parent |
| Parse.TopFromIncreasing | test/ReqifParser.cpp:176-183 | visiting keys in increasing order gives an increasing list, so no identifier repeats |
| Parse.TopLevelIsSorted | test/ReqifParser.cpp:176-183 | the top-level list is the valid records without a parent, each once, in key order |
| Parse.FinishKeepsRecords | test/ReqifParser.cpp:83-95 | the passes change records only in level and parent, and keep which records are valid |
| Parse.InferLevelsBounded | test/ReqifParser.cpp:152-172 | inference over level-1 records leaves every level between 1 and 3 |
| Parse.RelevelBounded | test/ReqifParser.cpp:88-92 | the level pass keeps levels between 1 and 11 |
| Parse.FinishLevelsBounded | test/ReqifParser.cpp:83-95 | after the passes every level lies between 1 and 11 |
| Parse.FinishLevelsExplicit | test/ReqifParser.cpp:83-92 | with an explicit hierarchy every record's level is its depth in the parent map |
| Parse.RelevelInferred | test/ReqifParser.cpp:88-92 | after inference the level pass keeps inferred levels and leaves every other record at level 1 |
| Parse.FinishLevelsInferred | test/ReqifParser.cpp:83-92 | without an explicit hierarchy each candidate has the level of its sort number and every other record level 1 |
| Parse.FinishTop | test/ReqifParser.cpp:94-95 | the final top-level list is the valid records without a parent, in key order, whatever it held before |
| Parse.ParseXmlResult | test/ReqifParser.cpp:20-101 | records are keyed by their identifiers; a reader error fails; otherwise the parse succeeds iff some record is valid; after success every level is between 1 and 11 and the top-level list is the valid parentless records in key order |
| Parse.LoadUnopened | test/ReqifParser.cpp:13-25 | a file that cannot be opened fails with empty collections and the namespace unchanged |
| Parser.ReqifParser.constructor | test/ReqifParser.cpp:9-11 | a new parser holds no records, no links, no top-level requirements and no namespace |
| Parser.ReqifParser.OrderedKeys | test/ReqifParser.h:47 | the keys of the record map in the map's enumeration order |
| Parser.ReqifParser.Load | test/ReqifParser.cpp:13-18 | clears the collections, keeps the namespace, and ends as `Parse.Load` says |
| Parser.ReqifParser.ParseXml | test/ReqifParser.cpp:20-101 | the outcome and the new collections and namespace are those of `Parse.ParseXml` |
| Parser.ReqifParser.ParseHierarchy | test/ReqifParser.cpp:103-134 | the new collections and reader position are those of `Hierarchy.ParseHierarchy`; the namespace is kept |
| Parser.ReqifParser.ParseIntegerAttribute | test/ReqifParser.cpp:211-233 | the record and reader position are those of `Attributes.IntegerAttr` |
| Parser.ReqifParser.ParseXhtmlAttribute | test/ReqifParser.cpp:235-277 | the record and reader position are those of `Attributes.XhtmlAttr` |
| Parser.ReqifParser.ReadXhtmlContent | test/ReqifParser.cpp:279-313 | the content and reader position are those of `Content.XhtmlContent` |
| Parser.ReqifParser.WriteStartTag | test/ReqifParser.cpp:289-293 | appends the start tag with all its attributes |
| Parser.ReqifParser.InferHierarchyFromSortNumbers | test/ReqifParser.cpp:136-174 | the new collections are those of `Inference.Infer`; the namespace is kept |
| Parser.ReqifParser.CollectCandidates | test/ReqifParser.cpp:137-143 | collects the valid records with a positive sort number, in key order |
| Parser.ReqifParser.AssignLevels | test/ReqifParser.cpp:150-173 | the collections after the loop are those of `Inference.InferLoop` |
| Parser.ReqifParser.UpdateLevels | test/ReqifParser.cpp:88-92 | records at level 1 or below get their computed level, whatever order they are visited in; nothing else changes |
| Parser.ReqifParser.UpdateTopLevelReqs | test/ReqifParser.cpp:176-183 | the top-level list becomes `Parse.TopLevel`; nothing else changes |
| Parser.ReqifParser.CollectTopLevel | test/ReqifParser.cpp:177-182 | collects the valid records without a parent, in the order of the keys |
| Parser.ReqifParser.CalculateLevel | test/ReqifParser.cpp:185-205 | returns `Levels.LevelOf` of the parent map |
| Parser.ReqifParser.GetReqDescription | test/ReqifParser.cpp:376-382 | returns `Records.ReqDescription` |
| Parser.ReqifParser.GetAllReqCount | test/ReqifParser.cpp:384-386 | the number of records, which bounds the number of valid ones |
| Parser.ReqifParser.GetValidReqCount | test/ReqifParser.cpp:388-394 | the number of valid records, whatever order they are visited in |

## Left out

- File opening, the error dialogs and the debug logging (test/ReqifParser.cpp:21-25, 77-80, 97-98) are I/O and UI. A file that cannot be opened is the `None` input of `Parse.Load`. A reader error is the error flag of the cursor.
- The streaming reader's tokenisation, namespace processing and well-formedness checking are not modelled. The token sequence and its `Invalid` token stand for them.
- `fillTree` (test/ReqifParser.cpp:338-374) builds widget items and is UI. test/main.cpp, test/mainwindow.cpp and test/TEDEmandModelPreview.cpp are not part of this model.
- Case-insensitive comparison and search fold ASCII letters only, not all of Unicode.
- String keys are ordered character by character by code point. This stands in for the ordered map's string comparison.
- The regular expressions of `cleanHtml` are written out as three fixed tag patterns (`Markup.Pattern`), not as a general regular-expression engine.
- Text.ToInt: models a base-10 parse with optional sign and surrounding whitespace, yielding 0 on failure or overflow. Other details of the framework's conversion are not modelled.
- Inference.SortBySortNum: the source's sort is unstable, so the order among equal sort numbers is unspecified. The model fixes one order, the key order among equals. Only `Inference.InferParentsBySort` depends on that choice. `Inference.InferParents` holds for every order.
- The inference works on references to the records inside the record map. The model addresses records by key, which is the same once keys equal identifiers (`Parse.ScanKeeps`).
- Inference.InferParents, Inference.InferLoopParentMap and Inference.InferParentKeys: each requires every record to be stored under its own identifier. The source uses identifiers and keys interchangeably, and the scan establishes this (`Parse.ScanKeeps`).
- Parse.ParseXmlResult: states its guarantees for a parse that starts from empty collections. `load` always clears them first.
- Hierarchy.HierTree, Hierarchy.ParseHierarchyOfTree, Hierarchy.HierForest, Hierarchy.HierLeaf, Hierarchy.HierBody, Hierarchy.HierWrapped, Hierarchy.HierShellHead, Hierarchy.HierHead, Attributes.XhtmlValueSetsField and Attributes.IntegerValueSetsSortNum: each describes documents laid out without text, comments or other elements between the tags it names, and with no attributes on the OBJECT, SPEC-OBJECT-REF and CHILDREN tags. Whitespace between tags in a pretty-printed file is such text, so these statements do not describe it. For hierarchies, `Hierarchy.HierLoopBounded` covers every well-formed layout but states only where parsing stops, not the effect on the store; for attribute values, `Attributes.XhtmlAttrBounded` and `Attributes.IntegerRefBounded` do the same. The effect of a single step in any layout is given by `Hierarchy.HierSkip`, `Hierarchy.HierRefStep`, `Hierarchy.HierNestedStep` and `Hierarchy.HierEnd`.
- The parsed hierarchy is not connected to the widget tree that `fillTree` would build.
