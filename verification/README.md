# Verified models of the behaviour tree executor

The repository drives a robot with behaviour trees: the timer callback of a node ticks a tree and starts
skills (the creation of the timer itself is commented out, `kios_cpp/src/node/tree_node.cpp:107-110`), on
top of BehaviorTree.CPP and the libraries vendored in it. This project models the parts where most
can go wrong and proves what they promise. The modules, by component:

- **Wildcards** (`Wildcard*.dfy`): the matcher over raw pattern text with its five boundary scanners,
  against a declarative language of pattern trees. The matcher commits to the first prefix that an
  alternative body matches; the accepted texts are characterized exactly, for every pattern by the order
  of choices and for bodies without nested alternatives of varying width by shortest prefixes.
- **tinyxml2, text and documents** (`Xml{Text,References,StrPair,Tree,Parser,Grammar,Accepted,Slices,
  ParserLoops,Reads,RoundTrip,Elements,Layout,Documents,Writing,Printer}.dfy`): entity decoding in place, the
  recursive-descent parser, against a grammar, on the buffer it writes terminators into, the lazy reads after
  it, the stateful printer, and the inversion of printing and parsing (XML 1.0, sections 3.1, 4.1 and 4.6).
- **tinyxml2, nodes and memory** (`SiblingLists`, `NodeWorlds`, `XmlDom`, `MemPools`, `XmlAttributes`,
  `XmlBooks`, `XmlDomDocument`, `XmlDomRuns`): doubly linked children changed in place, recursive
  deletion, pools, the conservation of their counts, and whole runs from a new document. An operation is
  proved in three layers: the assignments, what they do to all links, and what that does to the books.
- **Blackboard**: scoped stores with remapping; the caching lookup against the `const` one.
- **Threaded actions and halting** (`ThreadedAction`, `HaltTree`): the worker protocol as a state
  machine over atomic steps, and halting of a whole tree on the heap.
- **minicoro** (`Coroutines`, `CoroutineMemory`): the chain of resumers, the memory layout, the byte
  stack.
- **Multipart framing** (`Multipart`): the encoder and decoder of ZeroMQ RFC 50.
- **Tree XML** (`TreeXml`, `TreeXmlLoads`, `TreeXmlDocuments`, `TreeLoader`): verification, expansion of subtrees, export,
  node numbers.
- **Skill gating** (`SkillGating`, `SkillOutcomes`): the phases of the kios tree node and the commander.

What the proofs found about the code:

- `(*)c` does not match `ac`: completeness holds for bodies of fixed width, and for `*` in bodies the
  exact language is that of least prefixes.
- Strings come back from printing and parsing exactly when they hold no carriage return; trees exactly
  when they hold no blank or adjacent text nodes and nest at most 98 elements with content.
- `&#` at the end of a text loses its ampersand, `&#1#2;` is read as `&#2;`, and so is `&#xAx2;` as `&#x2;`.
- A stray end tag at the top level ends a document without an error, whatever follows it, `</a/>` is an empty
  element, and end tags may have attributes.
- `PrintString` hands its last run to a call with an `int` length and loses what is longer than that.
- The comment in `ParseAttributes` says that duplicate attributes go undetected; the code rejects them.
- `InsertAfterChild` follows a null pointer exactly when the node to insert is the last child and
  directly behind the given one.
- The `const` lookup of the blackboard stores on the boards above its own; no lookup shows it.
- A key whose remappings end at a board that remaps it and has no parent gets a null entry, which `set`
  follows.
- The second pass of `haltTree`, meant to do nothing, halts what no RUNNING parent led to.
- `<Action ID="SubTree"/>` and `<Action ID="Inverter"/>` pass verification: the one is exported as a
  subtree without its ID, for the other the export follows a null pointer.
- The handler in `ThreadedAction` sets the status to IDLE, which throws: the node stays RUNNING.
- A root that is a running stateful action gets `onHalted` twice.
- A storage size set after `mco_desc_init` gets no more memory than the 16 bytes of slack, less what
  aligning the context costs.
- A node registered as `Action`, `Condition`, `Control` or `Decorator` is exported in a form that cannot
  be read, and so is a childless node named like the builtin sequences and fallback.
- The power is tested at the start of the callback only: turned off later from outside, it does not hold
  back the tick, the stop or the start that follows.
- A failed tick with an error in the tree state is no end: turned on again, the node ticks again.
- The tree node's success flag survives into the next action when the message that the new skill runs
  is there by the next callback. The commander reports a command as accepted even if nothing started.

## Model

| member | source | states |
|---|---|---|
| `WildcardTheorems.MatchesSound` | kios_cpp/lib/BehaviorTree.CPP/3rdparty/wildcards/wildcards.hpp:1491-1604 | On any text and any pattern text, matching ends without an exception thrown by a scanner, and a text it accepts is in the language that the pattern denotes |
| `WildcardTheorems.MatchesComplete` | kios_cpp/lib/BehaviorTree.CPP/3rdparty/wildcards/wildcards.hpp:1450-1604 | When every alternative body has a fixed width (no `*`), matching accepts exactly the texts of the language, with all backtracking over `*` outside the bodies |
| `WildcardTheorems.MatchesOrdered` | kios_cpp/lib/BehaviorTree.CPP/3rdparty/wildcards/wildcards.hpp:1456-1604 | For every pattern, the accepted texts are exactly those of its ordered meaning, in which an alternative body stands for one prefix, the first in the order in which choices are tried |
| `WildcardTheorems.MatchesExact` | kios_cpp/lib/BehaviorTree.CPP/3rdparty/wildcards/wildcards.hpp:1463-1471 | When bodies hold no nested alternative or have a fixed width, `*` in them included, the accepted texts are exactly those of the language in which each body takes the shortest prefix it can match |
| `WildcardTheorems.StarInBodyLosesText` | kios_cpp/lib/BehaviorTree.CPP/3rdparty/wildcards/wildcards.hpp:1463-1471 | `(*)c` rejects `ac`, which is in its language: the restriction in `MatchesComplete` is needed |
| `WildcardRender.ParseRendered` | kios_cpp/lib/BehaviorTree.CPP/3rdparty/wildcards/wildcards.hpp:820-1454 | Writing any pattern tree as text (escapes, sets, nested alternatives) and scanning it gives the tree back: the scanners find every boundary |
| `WildcardRender.MatchesRendered` | kios_cpp/lib/BehaviorTree.CPP/3rdparty/wildcards/wildcards.hpp:1450-1604 | Matching the text of any pattern tree with fixed-width bodies decides the language of the tree |
| `WildcardRender.ScanRendered` | kios_cpp/lib/BehaviorTree.CPP/3rdparty/wildcards/wildcards.hpp:1235-1445 | The alternative scanners pass over the text of a whole pattern without changing depth and stop nowhere inside it |
| `WildcardRender.Sample` | kios_cpp/lib/BehaviorTree.CPP/3rdparty/wildcards/wildcards.hpp:820-1454 | A pattern with one of everything, character by character, is scanned to what its cards stand for |
| `WildcardTheorems.MatchRefines` | kios_cpp/lib/BehaviorTree.CPP/3rdparty/wildcards/wildcards.hpp:1491-1604 | The matcher on pattern text returns the answer and the end of the consumed text of the matcher on the pattern tree |
| `WildcardTheorems.MatchAltRefines` | kios_cpp/lib/BehaviorTree.CPP/3rdparty/wildcards/wildcards.hpp:1456-1487 | The same for a list of alternatives; every `alt_sub_end` on the narrowed range succeeds |
| `WildcardTheorems.MatchSetMeaning` | kios_cpp/lib/BehaviorTree.CPP/3rdparty/wildcards/wildcards.hpp:997-1140 | A set accepts exactly the characters it spells out, or exactly the others when it is negated |
| `WildcardOrder.FirstFound` | kios_cpp/lib/BehaviorTree.CPP/3rdparty/wildcards/wildcards.hpp:1456-1487 | In partial mode the matcher stops at the first prefix of the ordered meaning, nested alternatives included |
| `WildcardOrder.AcceptsExactly` | kios_cpp/lib/BehaviorTree.CPP/3rdparty/wildcards/wildcards.hpp:1491-1604 | A whole match succeeds exactly on what the ordered meaning accepts |
| `WildcardOrder.FirstIsWord` | kios_cpp/lib/BehaviorTree.CPP/3rdparty/wildcards/wildcards.hpp:1463-1471 | A pattern has one first prefix at most, and it is a word of its language |
| `WildcardOrder.FirstIsMinimal` | kios_cpp/lib/BehaviorTree.CPP/3rdparty/wildcards/wildcards.hpp:1463-1471 | In a body without alternatives or of fixed width the first prefix is the shortest one |
| `WildcardOrder.AcceptsIsCommitted` | kios_cpp/lib/BehaviorTree.CPP/3rdparty/wildcards/wildcards.hpp:1463-1471 | For patterns with such bodies only, the ordered meaning is the language of shortest prefixes |
| `WildcardExactness.MatchTreeExact` | kios_cpp/lib/BehaviorTree.CPP/3rdparty/wildcards/wildcards.hpp:1456-1604 | The backtracking matcher on a tree with simple bodies succeeds exactly on the committed language |
| `WildcardExactness.BodyIsMinimal` | kios_cpp/lib/BehaviorTree.CPP/3rdparty/wildcards/wildcards.hpp:1463-1471 | The prefix that a body matches is the least one in its language |
| `WildcardExactness.FixedBodiesLoseNothing` | kios_cpp/lib/BehaviorTree.CPP/3rdparty/wildcards/wildcards.hpp:1456-1471 | With fixed-width bodies committing to the first prefix loses no text of the language |
| `WildcardLanguage.MatchTreeSound` | kios_cpp/lib/BehaviorTree.CPP/3rdparty/wildcards/wildcards.hpp:1450-1604 | What the tree matcher consumes is a word of the pattern; without `partial` it is the whole rest of the text |
| `WildcardScanners.SubEndInsideAlt` | kios_cpp/lib/BehaviorTree.CPP/3rdparty/wildcards/wildcards.hpp:1146-1445 | Where `alt_end` finds an end, every `alt_sub_end` on the range narrowed to it succeeds inside, and what is behind a separator is accepted again with the same end |
| `WildcardScanners.SetEndNarrow` | kios_cpp/lib/BehaviorTree.CPP/3rdparty/wildcards/wildcards.hpp:898-986 | A set is found with the same end in every range that holds the end, and in no shorter one |
| `WildcardScanners.IsSetLoop` | kios_cpp/lib/BehaviorTree.CPP/3rdparty/wildcards/wildcards.hpp:821-890 | The loop over states decides what the recursive form decides |
| `WildcardScanners.SetEndLoop` | kios_cpp/lib/BehaviorTree.CPP/3rdparty/wildcards/wildcards.hpp:898-986 | The loop finds the end that the recursive form finds, or throws as it does |
| `WildcardScanners.IsAltLoop` | kios_cpp/lib/BehaviorTree.CPP/3rdparty/wildcards/wildcards.hpp:1146-1225 | The loop with its depth counter decides what the recursive form decides |
| `WildcardScanners.AltEndLoop` | kios_cpp/lib/BehaviorTree.CPP/3rdparty/wildcards/wildcards.hpp:1235-1338 | The loop finds the end of the alternative that the recursive form finds |
| `WildcardScanners.AltSubEndLoop` | kios_cpp/lib/BehaviorTree.CPP/3rdparty/wildcards/wildcards.hpp:1348-1445 | The loop finds the end of the alternative body that the recursive form finds |
| `WildcardMatcher.MatchSetLoop` | kios_cpp/lib/BehaviorTree.CPP/3rdparty/wildcards/wildcards.hpp:997-1140 | The loop over a set gives the result of the recursive form, exceptions included |
| `XmlDocuments.RoundTripExact` | kios_cpp/lib/BehaviorTree.CPP/3rdparty/tinyxml2/tinyxml2.cpp:2111-2122 | For any legal list of elements, in both print modes, parsing the printed document gives the same tree exactly when no text node is blank or next to another and at most 98 elements with content are nested |
| `XmlDocuments.PrintThenParse` | kios_cpp/lib/BehaviorTree.CPP/3rdparty/tinyxml2/tinyxml2.cpp:2517-2531 | For any legal list of elements parsing the printed document gives its normal form, or the depth error when more than 98 are nested |
| `XmlText.DecodeInvertsEscape` | kios_cpp/lib/BehaviorTree.CPP/3rdparty/tinyxml2/tinyxml2.cpp:281-400 | Decoding what `PrintString` escaped gives the string exactly when it holds no carriage return; only entities of the table are met, never the branch for unknown ones |
| `XmlText.DecodeEscapedFrom` | kios_cpp/lib/BehaviorTree.CPP/3rdparty/tinyxml2/tinyxml2.cpp:281-400 | Wherever escaped text stands, and however far the write position lags behind, decoding it gives the text |
| `XmlText.EntityFound` | kios_cpp/lib/BehaviorTree.CPP/3rdparty/tinyxml2/tinyxml2.cpp:345-372 | The table search finds, for each written entity, the character it was written for |
| `XmlReferences.ReferenceDecoded` | kios_cpp/lib/BehaviorTree.CPP/3rdparty/tinyxml2/tinyxml2.cpp:470-572 | Inside any text, `&#` or `&#x`, digits and a semicolon are decoded to the UTF-8 bytes of the number the digits denote, for every number below 2^32, any leading zeros and either case: the wrap-around of the scale does no harm |
| `XmlReferences.ReferenceExactly` | kios_cpp/lib/BehaviorTree.CPP/3rdparty/tinyxml2/tinyxml2.cpp:470-572 | What begins like a reference and is ended by a semicolon is one exactly when only digits stand behind its last marker |
| `XmlReferences.BrokenIsNone` | kios_cpp/lib/BehaviorTree.CPP/3rdparty/tinyxml2/tinyxml2.cpp:470-572 | It is none exactly when a character that is no digit stands there or there is no semicolon |
| `XmlReferences.AmpersandStays` | kios_cpp/lib/BehaviorTree.CPP/3rdparty/tinyxml2/tinyxml2.cpp:323-332 | What begins like a reference and is none leaves its ampersand in the text |
| `XmlReferences.BareReference` | kios_cpp/lib/BehaviorTree.CPP/3rdparty/tinyxml2/tinyxml2.cpp:474-571 | An ampersand and a hash at the very end of the text lose the ampersand |
| `XmlReferences.Utf8Exactly` | kios_cpp/lib/BehaviorTree.CPP/3rdparty/tinyxml2/tinyxml2.cpp:417-461 | The bytes of a code are exactly those that stand for it in UTF-8, in their shortest form, and there are none from 0x200000 on |
| `XmlReferences.NumeralRead` | kios_cpp/lib/BehaviorTree.CPP/3rdparty/tinyxml2/tinyxml2.cpp:502-560 | Reading digits backwards gives the number they denote from the most significant digit on |
| `XmlReferences.EntityDecoded` | kios_cpp/lib/BehaviorTree.CPP/3rdparty/tinyxml2/tinyxml2.cpp:345-372 | Inside any text each of the five entities is decoded to its character |
| `XmlReferences.EscapedNamed` | kios_cpp/lib/BehaviorTree.CPP/3rdparty/tinyxml2/tinyxml2.cpp:2631-2683 | A character is written as its entity exactly where it has to be, else as it is |
| `XmlText.CharacterRef` | kios_cpp/lib/BehaviorTree.CPP/3rdparty/tinyxml2/tinyxml2.cpp:470-542 | A character reference takes characters that are there, and never stands for more bytes than it takes |
| `XmlText.RefLongEnough` | kios_cpp/lib/BehaviorTree.CPP/3rdparty/tinyxml2/tinyxml2.cpp:417-542 | The bytes of a decoded reference fit in the characters it was written with, wrap-around of the scale and the sum included |
| `XmlText.DecodeFrom` | kios_cpp/lib/BehaviorTree.CPP/3rdparty/tinyxml2/tinyxml2.cpp:281-379 | From any read and write position the write pointer never passes the read pointer |
| `XmlStrPair.StrPair.GetStr` | kios_cpp/lib/BehaviorTree.CPP/3rdparty/tinyxml2/tinyxml2.cpp:281-400 | The first read decodes the slice in place and terminates it, later reads change nothing, and no read touches a byte outside the slice |
| `XmlStrPair.StrPair.Rewrite` | kios_cpp/lib/BehaviorTree.CPP/3rdparty/tinyxml2/tinyxml2.cpp:290-379 | The read-and-write loop leaves exactly the decoded text before its write position |
| `XmlStrPair.StrPair.Set` | kios_cpp/lib/BehaviorTree.CPP/3rdparty/tinyxml2/tinyxml2.h:155-165 | A pair is set to a slice that is decoded at its first read |
| `XmlElements.ElementPrinted` | kios_cpp/lib/BehaviorTree.CPP/3rdparty/tinyxml2/tinyxml2.cpp:2043-2068 | Wherever the text of a legal element stands, parsing there gives the element in normal form, and stops right behind it |
| `XmlElements.NodesPrinted` | kios_cpp/lib/BehaviorTree.CPP/3rdparty/tinyxml2/tinyxml2.cpp:1042-1154 | The same for a list of nodes under an open element, with text nodes that run together joined |
| `XmlElements.EndTagNodes` | kios_cpp/lib/BehaviorTree.CPP/3rdparty/tinyxml2/tinyxml2.cpp:1117-1127 | An end tag is read as an element by the child level and handed to its parent |
| `XmlRoundTrip.AttributesFound` | kios_cpp/lib/BehaviorTree.CPP/3rdparty/tinyxml2/tinyxml2.cpp:1927-1983 | Printed attributes with distinct legal names are read back in their order |
| `XmlRoundTrip.AttributeFound` | kios_cpp/lib/BehaviorTree.CPP/3rdparty/tinyxml2/tinyxml2.cpp:1410-1435 | A printed attribute is read back with its name and its value |
| `XmlLayout.LayKeepsNorm` | kios_cpp/lib/BehaviorTree.CPP/3rdparty/tinyxml2/tinyxml2.cpp:2697-2812 | Pretty printing is compact printing of a tree with blank text nodes added, and these do not change the normal form |
| `XmlLayout.TextlessIsLined` | kios_cpp/lib/BehaviorTree.CPP/3rdparty/tinyxml2/tinyxml2.cpp:2697-2812 | Where there is no text, every element begins a line, indented by its level, and every end tag of an element with content stands on a line at the level of its tag |
| `XmlLayout.BehindTextAddsNothing` | kios_cpp/lib/BehaviorTree.CPP/3rdparty/tinyxml2/tinyxml2.cpp:2697-2838 | Behind text, elements without text of their own are printed without white space until the element around them ends |
| `XmlLayout.CompactAddsNothing` | kios_cpp/lib/BehaviorTree.CPP/3rdparty/tinyxml2/tinyxml2.cpp:2697-2812 | Compact printing adds no white space |
| `XmlLayout.FourToALevel` | kios_cpp/lib/BehaviorTree.CPP/3rdparty/tinyxml2/tinyxml2.cpp:2623-2628 | A level is four spaces |
| `XmlDocuments.Sample` | kios_cpp/lib/BehaviorTree.CPP/3rdparty/tinyxml2/tinyxml2.cpp:2697-2812 | A small element with an attribute and a child, character by character |
| `XmlTree.NormFixesPlain` | kios_cpp/lib/BehaviorTree.CPP/3rdparty/tinyxml2/tinyxml2.cpp:1201-1225 | Trees without blank or adjacent text nodes are their own normal form |
| `XmlParser.ParseAttributes` | kios_cpp/lib/BehaviorTree.CPP/3rdparty/tinyxml2/tinyxml2.cpp:1927-1983 | Parsing attributes ends, strictly behind where it began and inside the text |
| `XmlAccepted.ParsedExactly` | kios_cpp/lib/BehaviorTree.CPP/3rdparty/tinyxml2/tinyxml2.cpp:2517-2531 | For every text without NUL: parsing gives nodes if and only if the text derives them in the language of documents, with distinct attribute names, end tags of the names of their start tags, and at most 98 nested elements with content; all other text is an error |
| `XmlAccepted.DocumentParsed` | kios_cpp/lib/BehaviorTree.CPP/3rdparty/tinyxml2/tinyxml2.cpp:1042-1154 | What the language derives is parsed to it |
| `XmlAccepted.DocumentFound` | kios_cpp/lib/BehaviorTree.CPP/3rdparty/tinyxml2/tinyxml2.cpp:1042-1154 | What is parsed is derived by the language |
| `XmlAccepted.ParsesElement` | kios_cpp/lib/BehaviorTree.CPP/3rdparty/tinyxml2/tinyxml2.cpp:2043-2068 | An element that is read is a tag closed at once, an end tag, or an open tag with derived content and an end tag |
| `XmlAccepted.AttributesParsed` | kios_cpp/lib/BehaviorTree.CPP/3rdparty/tinyxml2/tinyxml2.cpp:1927-1983 | Attributes in quotes of either kind, with white space around them, are read in their order to the end of the tag |
| `XmlAccepted.WrongEndTag` | kios_cpp/lib/BehaviorTree.CPP/3rdparty/tinyxml2/tinyxml2.cpp:1129-1145 | Wherever it stands in a document, and however deep, an element with an end tag of another name makes the whole document that error |
| `XmlGrammar.CharacterClasses` | kios_cpp/lib/BehaviorTree.CPP/3rdparty/tinyxml2/tinyxml2.h:572-591 | White space and the characters of names, by their codes |
| `XmlParserLoops.ParseDeepLoop` | kios_cpp/lib/BehaviorTree.CPP/3rdparty/tinyxml2/tinyxml2.cpp:1042-1154 | The loop over nodes, on a buffer with the terminators of the names read so far in it, computes the recursive specification over the text; only terminators are written, none into a slice of the tree |
| `XmlParserLoops.ParseAttributesLoop` | kios_cpp/lib/BehaviorTree.CPP/3rdparty/tinyxml2/tinyxml2.cpp:1927-1983 | The loop that links attributes in order, and reads their names for duplicates while the rest is still to be parsed, computes the recursive specification |
| `XmlParserLoops.ParseElementRec` | kios_cpp/lib/BehaviorTree.CPP/3rdparty/tinyxml2/tinyxml2.cpp:2043-2068 | `XMLElement::ParseDeep` with attributes, closing type and children computes the specification, and leaves the text behind the element as it was |
| `XmlParserLoops.SameTag` | kios_cpp/lib/BehaviorTree.CPP/3rdparty/tinyxml2/tinyxml2.cpp:1129-1145 | The end tag and the name of the element are read in place and compared as in the text; no other slice is touched |
| `XmlParserLoops.ParseTextLoop` | kios_cpp/lib/BehaviorTree.CPP/3rdparty/tinyxml2/tinyxml2.cpp:207-229 | The loop finds the first occurrence of the end tag |
| `XmlParserLoops.ParseNameLoop` | kios_cpp/lib/BehaviorTree.CPP/3rdparty/tinyxml2/tinyxml2.cpp:232-249 | The loop takes the longest name |
| `XmlReads.ParseDocumentLoop` | kios_cpp/lib/BehaviorTree.CPP/3rdparty/tinyxml2/tinyxml2.cpp:2517-2531 | Parsing a document in its buffer gives the specified document, as slices that do not meet and hold no terminator |
| `XmlReads.ReadInAnyOrder` | kios_cpp/lib/BehaviorTree.CPP/3rdparty/tinyxml2/tinyxml2.cpp:281-400 | The pairs of one buffer are read in any order and any number of times: each read gives what its text stands for and spoils no other |
| `XmlReads.ParseThenRead` | kios_cpp/lib/BehaviorTree.CPP/3rdparty/tinyxml2/tinyxml2.cpp:281-400 | Parsing a document and then reading any of its strings in any order gives the strings of the specified tree |
| `XmlPrinter.XMLPrinter.AcceptDocument` | kios_cpp/lib/BehaviorTree.CPP/3rdparty/tinyxml2/tinyxml2.cpp:780-790 | The stateful printer driven by the visitor writes exactly the laid-out document with its values cut, in both modes, with entities processed or not |
| `XmlPrinter.XMLPrinter.AcceptElement` | kios_cpp/lib/BehaviorTree.CPP/3rdparty/tinyxml2/tinyxml2.cpp:2111-2122 | Visiting any element, in whatever state, appends its laid-out text with its values cut and leaves the printer ready for the next node |
| `XmlPrinter.XMLPrinter.PrintString` | kios_cpp/lib/BehaviorTree.CPP/3rdparty/tinyxml2/tinyxml2.cpp:2631-2683 | The two-pointer loop appends the escaped string, its last unescaped run cut to `INT_MAX` bytes |
| `XmlWriting.PrintedInFull` | kios_cpp/lib/BehaviorTree.CPP/3rdparty/tinyxml2/tinyxml2.cpp:2631-2683 | A string is written in full exactly when its last unescaped run fits an `int` |
| `XmlWriting.CutIsPrinted` | kios_cpp/lib/BehaviorTree.CPP/3rdparty/tinyxml2/tinyxml2.cpp:2672-2678 | What is written of a string is the whole text of the string cut there |
| `XmlWriting.WrittenInFull` | kios_cpp/lib/BehaviorTree.CPP/3rdparty/tinyxml2/tinyxml2.cpp:2631-2683 | A document is written in full exactly when the last unescaped run of each of its values fits an `int` |
| `XmlWriting.WriteAllIsPrint` | kios_cpp/lib/BehaviorTree.CPP/3rdparty/tinyxml2/tinyxml2.cpp:2631-2683 | With entity processing, what is written of a list of nodes is the text for which parsing back is proved |
| `XmlPrinter.XMLPrinter.OpenElement` | kios_cpp/lib/BehaviorTree.CPP/3rdparty/tinyxml2/tinyxml2.cpp:2697-2725 | Seals an open tag, breaks the line outside compact mode and text, and appends the tag |
| `XmlPrinter.XMLPrinter.CloseElement` | kios_cpp/lib/BehaviorTree.CPP/3rdparty/tinyxml2/tinyxml2.cpp:2787-2812 | Closes an empty element with a slash and any other with its end tag, at the right indentation |
| `XmlPrinter.XMLPrinter.PushAttribute` | kios_cpp/lib/BehaviorTree.CPP/3rdparty/tinyxml2/tinyxml2.cpp:2728-2737 | Appends name and value to the open tag, the value escaped and cut, or as it is without entity processing |
| `XmlPrinter.XMLPrinter.PushText` | kios_cpp/lib/BehaviorTree.CPP/3rdparty/tinyxml2/tinyxml2.cpp:2825-2838 | Appends the text, escaped and cut or as it is, and marks the element as holding text |
| `XmlDom.XMLNode.Unlink` | kios_cpp/lib/BehaviorTree.CPP/3rdparty/tinyxml2/tinyxml2.cpp:858-879 | A child leaves its parent's list; its neighbours and the ends of the list close up, every other link stays, and all lists stay consistent |
| `XmlDom.XMLNode.LinkEnd` | kios_cpp/lib/BehaviorTree.CPP/3rdparty/tinyxml2/tinyxml2.cpp:904-921 | A node without a parent becomes the last child; the source's assertions hold |
| `XmlDom.XMLNode.LinkFirst` | kios_cpp/lib/BehaviorTree.CPP/3rdparty/tinyxml2/tinyxml2.cpp:934-952 | A node without a parent becomes the first child; the source's assertions hold |
| `XmlDom.XMLNode.LinkAfter` | kios_cpp/lib/BehaviorTree.CPP/3rdparty/tinyxml2/tinyxml2.cpp:982-988 | A node without a parent is put behind a child that is not the last |
| `XmlDom.XMLNode.Detach` | kios_cpp/lib/BehaviorTree.CPP/3rdparty/tinyxml2/tinyxml2.cpp:863-878 | The assignments of `Unlink` change these fields of these nodes and nothing else |
| `XmlDom.XMLNode.AttachEnd` | kios_cpp/lib/BehaviorTree.CPP/3rdparty/tinyxml2/tinyxml2.cpp:904-920 | The assignments of `InsertEndChild` change these fields of these nodes and nothing else |
| `XmlDom.XMLNode.AttachFirst` | kios_cpp/lib/BehaviorTree.CPP/3rdparty/tinyxml2/tinyxml2.cpp:934-951 | The assignments of `InsertFirstChild` change these fields of these nodes and nothing else |
| `XmlDom.XMLNode.AttachAfter` | kios_cpp/lib/BehaviorTree.CPP/3rdparty/tinyxml2/tinyxml2.cpp:983-987 | The assignments of `InsertAfterChild` change these fields of these nodes and nothing else |
| `NodeWorlds.UnlinkKeeps` | kios_cpp/lib/BehaviorTree.CPP/3rdparty/tinyxml2/tinyxml2.cpp:858-879 | After unlinking every parent's doubly linked list is again one sequence of distinct children, and the structure is a forest |
| `NodeWorlds.AppendKeeps` | kios_cpp/lib/BehaviorTree.CPP/3rdparty/tinyxml2/tinyxml2.cpp:895-922 | The same after linking at the end, for any node that is not an ancestor |
| `NodeWorlds.PrependKeeps` | kios_cpp/lib/BehaviorTree.CPP/3rdparty/tinyxml2/tinyxml2.cpp:925-953 | The same after linking at the front |
| `NodeWorlds.PutAfterKeeps` | kios_cpp/lib/BehaviorTree.CPP/3rdparty/tinyxml2/tinyxml2.cpp:956-989 | The same after linking behind a child |
| `NodeWorlds.NoCycle` | kios_cpp/lib/BehaviorTree.CPP/3rdparty/tinyxml2/tinyxml2.cpp:895-989 | No node is inside one of its own descendants |
| `NodeWorlds.NextWhenOut` | kios_cpp/lib/BehaviorTree.CPP/3rdparty/tinyxml2/tinyxml2.cpp:978-985 | What stands behind a child once another node is taken out: the reason for the null pointer in `InsertAfterChild` |
| `XmlDomDocument.XMLDocument.InsertEndChild` | kios_cpp/lib/BehaviorTree.CPP/3rdparty/tinyxml2/tinyxml2.cpp:895-922 | Moving or adding a node takes it out of its old sequence of children and appends it to the new one exactly once; all other sequences stay, and the books of the pools balance |
| `XmlDomDocument.XMLDocument.InsertFirstChild` | kios_cpp/lib/BehaviorTree.CPP/3rdparty/tinyxml2/tinyxml2.cpp:925-953 | The same at the front |
| `XmlDomDocument.XMLDocument.InsertAfterChild` | kios_cpp/lib/BehaviorTree.CPP/3rdparty/tinyxml2/tinyxml2.cpp:956-989 | The same behind a child; refused for another document or another parent, unchanged for the node itself, and a null pointer is followed exactly when the node is the last child directly behind that child |
| `XmlDomDocument.XMLDocument.InsertChildPreamble` | kios_cpp/lib/BehaviorTree.CPP/3rdparty/tinyxml2/tinyxml2.cpp:1171-1183 | A linked node leaves its parent; an unlinked one leaves the list of unlinked nodes and its pool counts one fewer |
| `XmlDomDocument.XMLDocument.MarkInUse` | kios_cpp/lib/BehaviorTree.CPP/3rdparty/tinyxml2/tinyxml2.cpp:2179-2190 | The node, and only it, is off the list, by swapping in the last one |
| `XmlDomDocument.XMLDocument.CreateUnlinkedNode` | kios_cpp/lib/BehaviorTree.CPP/3rdparty/tinyxml2/tinyxml2.h:1985-1995 | The new node has memory that no live node of its pool has, and is on the list |
| `XmlDomDocument.XMLDocument.DeleteNode` | kios_cpp/lib/BehaviorTree.CPP/3rdparty/tinyxml2/tinyxml2.cpp:2294-2309 | Exactly the node and everything inside it are gone; the others keep parents and children, and the books balance |
| `XmlDomDocument.XMLDocument.DeleteChild` | kios_cpp/lib/BehaviorTree.CPP/3rdparty/tinyxml2/tinyxml2.cpp:882-892 | The recursive deletion of one child: what survives lost nothing but that child |
| `XmlDomDocument.XMLDocument.DeleteChildren` | kios_cpp/lib/BehaviorTree.CPP/3rdparty/tinyxml2/tinyxml2.cpp:848-855 | The loop deletes all children, whatever is inside them, and touches no survivor |
| `XmlDomDocument.XMLDocument.DeleteDetached` | kios_cpp/lib/BehaviorTree.CPP/3rdparty/tinyxml2/tinyxml2.cpp:1156-1169 | Deleting a node in no tree frees its memory and that of all nodes inside it |
| `XmlDomDocument.XMLDocument.Clear` | kios_cpp/lib/BehaviorTree.CPP/3rdparty/tinyxml2/tinyxml2.cpp:2192-2223 | Nothing but the document remains, and in all four pools the live count equals the untracked count, both zero, as the four assertions demand |
| `XmlDomDocument.XMLDocument.Conservation` | kios_cpp/lib/BehaviorTree.CPP/3rdparty/tinyxml2/tinyxml2.h:371-425 | In every state between operations a pool's live count is the number of its live nodes and its untracked count the number of those without a parent |
| `XmlDomDocument.XMLDocument.AttributeConservation` | kios_cpp/lib/BehaviorTree.CPP/3rdparty/tinyxml2/tinyxml2.cpp:1996-2004 | The live count of the pool of attributes is the number of attributes of all elements, and none is untracked |
| `XmlDomDocument.XMLDocument.FindOrCreateAttribute` | kios_cpp/lib/BehaviorTree.CPP/3rdparty/tinyxml2/tinyxml2.cpp:1880-1905 | Finds the attribute of that name and changes nothing, or appends a new one in an item no attribute has |
| `XmlDomDocument.XMLDocument.DeleteAttribute` | kios_cpp/lib/BehaviorTree.CPP/3rdparty/tinyxml2/tinyxml2.cpp:1908-1924 | Afterwards no attribute of the element has the name, the others stay in their order, and the item is free |
| `XmlDomDocument.XMLDocument.FreeAttributes` | kios_cpp/lib/BehaviorTree.CPP/3rdparty/tinyxml2/tinyxml2.cpp:1574-1581 | The destructor gives back the items of all attributes of the element and of no other |
| `XmlAttributes.ListedAdded` | kios_cpp/lib/BehaviorTree.CPP/3rdparty/tinyxml2/tinyxml2.cpp:1890-1903 | Names and items of attributes stay distinct, and every item in use stays owned by one element, when an attribute is added |
| `XmlAttributes.ListedDropped` | kios_cpp/lib/BehaviorTree.CPP/3rdparty/tinyxml2/tinyxml2.cpp:1908-1924 | The same when one is deleted, wherever it stands |
| `XmlAttributes.OwnedCount` | kios_cpp/lib/BehaviorTree.CPP/3rdparty/tinyxml2/tinyxml2.cpp:2218 | As many items are owned as elements have attributes |
| `XmlDomDocument.XMLDocument.constructor` | kios_cpp/lib/BehaviorTree.CPP/3rdparty/tinyxml2/tinyxml2.cpp:2151-2170 | A new document holds its own node only, with four new pools in which nothing is in use |
| `XmlDomRuns.Run` | kios_cpp/lib/BehaviorTree.CPP/3rdparty/tinyxml2/tinyxml2.cpp:895-989 | Over every run of creating, inserting, moving and deleting nodes, editing attributes and clearing, from a new document: the sibling lists and the forest are in order, a client that drops what it deletes knows exactly the nodes alive, and all four pools count what is alive |
| `XmlDomRuns.Step` | kios_cpp/lib/BehaviorTree.CPP/3rdparty/tinyxml2/tinyxml2.cpp:2294-2309 | Each operation a client may do keeps all of this |
| `XmlDomRuns.InsertLastBehindItsPredecessor` | kios_cpp/lib/BehaviorTree.CPP/3rdparty/tinyxml2/tinyxml2.cpp:956-989 | A new document with two children under its node: inserting the last one behind the other follows the null pointer |
| `XmlDomRuns.IsInside` | kios_cpp/lib/BehaviorTree.CPP/3rdparty/tinyxml2/tinyxml2.cpp:895-922 | Walking up the parents decides whether a node lies inside another, and ends |
| `XmlBooks.OkUnlinked` | kios_cpp/lib/BehaviorTree.CPP/3rdparty/tinyxml2/tinyxml2.cpp:858-879 | The books stay right when a node is unlinked in the middle of an operation |
| `XmlBooks.OkClaimed` | kios_cpp/lib/BehaviorTree.CPP/3rdparty/tinyxml2/tinyxml2.cpp:1179-1182 | The books stay right when a node is marked in use and tracked |
| `XmlBooks.OkFreed` | kios_cpp/lib/BehaviorTree.CPP/3rdparty/tinyxml2/tinyxml2.cpp:1156-1169 | The books stay right when the memory of a node is freed |
| `XmlBooks.OkCreated` | kios_cpp/lib/BehaviorTree.CPP/3rdparty/tinyxml2/tinyxml2.h:1985-1995 | The books stay right when a node is created |
| `XmlBooks.SwapRemoved` | kios_cpp/lib/BehaviorTree.CPP/3rdparty/tinyxml2/tinyxml2.h:282-287 | Swapping in the last element removes one element and keeps the others, without repeats |
| `MemPools.MemPool.Alloc` | kios_cpp/lib/BehaviorTree.CPP/3rdparty/tinyxml2/tinyxml2.h:375-399 | The item given out was not live and is now; a new block is made exactly when the free list is empty, and the item is the first of the list; live, total, untracked and largest count go up as they should |
| `MemPools.MemPool.Free` | kios_cpp/lib/BehaviorTree.CPP/3rdparty/tinyxml2/tinyxml2.h:401-412 | The item is free again and is the next one given out; the live count alone goes down |
| `MemPools.MemPool.NewBlock` | kios_cpp/lib/BehaviorTree.CPP/3rdparty/tinyxml2/tinyxml2.h:376-387 | The loop links all items of the new block, in order, into the free list |
| `MemPools.Taken` | kios_cpp/lib/BehaviorTree.CPP/3rdparty/tinyxml2/tinyxml2.h:388-390 | The head of the free list is not live, and its rest is a free list again |
| `MemPools.Returned` | kios_cpp/lib/BehaviorTree.CPP/3rdparty/tinyxml2/tinyxml2.h:406-411 | A freed item in front of the free list makes a free list again |
| `Blackboard.CacheTransparent` | kios_cpp/lib/BehaviorTree.CPP/src/blackboard.cpp:69-97 | The caching lookup of any key on any board changes the answer of no lookup of any key on any board |
| `Blackboard.CachingChangesNoLookup` | kios_cpp/lib/BehaviorTree.CPP/src/blackboard.cpp:39-97 | Storing what keys resolve to, wherever it is stored, changes no lookup |
| `Blackboard.CachedOnlyCaches` | kios_cpp/lib/BehaviorTree.CPP/src/blackboard.cpp:69-97 | The caching lookup stores nothing else than what the keys resolved to |
| `Blackboard.ResolvedKeeps` | kios_cpp/lib/BehaviorTree.CPP/src/blackboard.cpp:166-218 | A resolved key stays with its entry through caching and creation |
| `Blackboard.CoherenceKeeps` | kios_cpp/lib/BehaviorTree.CPP/src/blackboard.cpp:166-218 | A remapped key and its target go on resolving to the same entry through caching and creation |
| `Blackboard.CreatedResolves` | kios_cpp/lib/BehaviorTree.CPP/src/blackboard.cpp:166-218 | After creation the key resolves to the entry it resolved to before, or to the new one |
| `Blackboard.CreatedIsSeen` | kios_cpp/lib/BehaviorTree.CPP/src/blackboard.cpp:166-218 | A new entry is seen through exactly the names, on any boards, whose search ended where it was created; all other names resolve as before |
| `Blackboard.CreatedIsCached` | kios_cpp/lib/BehaviorTree.CPP/src/blackboard.cpp:166-218 | Creating a key that leads to an entry does what looking it up does |
| `Blackboard.CreatedGrows` | kios_cpp/lib/BehaviorTree.CPP/src/blackboard.cpp:166-218 | Creation stores only the found or new entry, on boards up the chain, and keeps remapped keys with their targets |
| `Blackboard.Board.FindEntry` | kios_cpp/lib/BehaviorTree.CPP/src/blackboard.cpp:39-66 | The `const` lookup returns the resolution and does not store on its own board; the boards above cache, because a parent is no `const` object to it |
| `Blackboard.LookTransparent` | kios_cpp/lib/BehaviorTree.CPP/src/blackboard.cpp:39-66 | The `const` lookup changes the answer of no lookup on any board |
| `Blackboard.LookStores` | kios_cpp/lib/BehaviorTree.CPP/src/blackboard.cpp:39-66 | It stores something exactly when its board leaves the key to its parent and the parent, which has no such key stored, resolves it |
| `Blackboard.Board.GetEntry` | kios_cpp/lib/BehaviorTree.CPP/src/blackboard.cpp:69-97 | Returns what the key resolves to and caches it along the way, nothing else |
| `Blackboard.Board.CreateEntryImpl` | kios_cpp/lib/BehaviorTree.CPP/src/blackboard.cpp:166-218 | Throws exactly when an entry up the chain was declared with another strong type, and then no board has changed; gives a null entry exactly when the key is stranded; otherwise returns the existing or a new entry |
| `Blackboard.StrandedIsNowhere` | kios_cpp/lib/BehaviorTree.CPP/src/blackboard.cpp:190-217 | A key is stranded when its remappings lead it up to a board that remaps it and has no parent, past boards that have it stored nowhere; it resolves to nothing |
| `Blackboard.GroundedExactly` | kios_cpp/lib/BehaviorTree.CPP/src/blackboard.cpp:190-217 | No key of any board is stranded exactly when the boards without a parent do not remap automatically and remap only keys they have stored |
| `Blackboard.Board.Set` | kios_cpp/lib/BehaviorTree.CPP/include/behaviortree_cpp/blackboard.h:116-197 | Writes exactly the entry the key resolves to, case by case: an untyped entry takes value and type; one of the same type takes the value; one of another type takes what its parser reads from a string, or a number that casts safely, or refuses; found further up it is written over unless declared otherwise. When it throws nothing has changed; it follows a null pointer exactly when the key is stranded |
| `Blackboard.EffectDecides` | kios_cpp/lib/BehaviorTree.CPP/include/behaviortree_cpp/blackboard.h:134-196 | These cases leave no choice of outcome, type or value |
| `Blackboard.Entry.Accept` | kios_cpp/lib/BehaviorTree.CPP/include/behaviortree_cpp/blackboard.h:134-196 | The cases of a key that is stored on the board itself |
| `Blackboard.Entry.CopyInto` | kios_cpp/lib/BehaviorTree.CPP/include/behaviortree_cpp/utils/safe_any.hpp:154-189 | A value goes into an empty place or one of its own type as it is; else what is there keeps its type and takes the converted data, or the copy fails |
| `Blackboard.Board.AddSubtreeRemapping` | kios_cpp/lib/BehaviorTree.CPP/src/blackboard.cpp:108-112 | The first remapping of a key stays |
| `Blackboard.HistoryMeans` | kios_cpp/lib/BehaviorTree.CPP/src/blackboard.cpp:39-218 | Between any two points of a run: a key that resolves goes on resolving to its entry, a key remapped to one of the parent resolves as that one does, and an entry once declared with a strong type keeps it |
| `Blackboard.UnwrittenStays` | kios_cpp/lib/BehaviorTree.CPP/include/behaviortree_cpp/blackboard.h:116-197 | Over any stretch of a run, lookups, creations, refused sets and sets of other entries change nothing of what an entry holds |
| `Blackboard.SetIsThere` | kios_cpp/lib/BehaviorTree.CPP/include/behaviortree_cpp/blackboard.h:116-197 | Under every name that led to the entry when it was set, it holds what the last set left there, which is the very value that was set wherever it is taken as it is |
| `Blackboard.Run` | kios_cpp/lib/BehaviorTree.CPP/src/blackboard.cpp:39-218 | Every run of `const` and caching lookups, creations and sets on any boards, whether they throw or not, is such a history from the first state to the last, entries made on the way included; what is stored at the end is old or new, and the run ends as it began, so that another can follow |
| `ThreadedAction.AtMostOneWriter` | kios_cpp/lib/BehaviorTree.CPP/src/action_node.cpp:188-241 | In every interleaving of the tree thread and its workers at most one worker can still write the status |
| `ThreadedAction.ResetStaysIdle` | kios_cpp/lib/BehaviorTree.CPP/src/control_node.cpp:37-62 | A node reset by its parent, after a halt if it was running, stays IDLE until the next `executeTick` |
| `ThreadedAction.ResultStays` | kios_cpp/lib/BehaviorTree.CPP/src/action_node.cpp:201-205 | When a worker has set its result, the status is the very one its `tick` returned, and stays so until the parent resets the node |
| `ThreadedAction.CheckedComesFrom` | kios_cpp/lib/BehaviorTree.CPP/src/action_node.cpp:200-205 | A worker about to set the status carries what its `tick` returned, and no halt had been requested then |
| `ThreadedAction.HaltedTickIsMute` | kios_cpp/lib/BehaviorTree.CPP/src/action_node.cpp:201-241 | A worker whose `tick` returns after the node was told to halt never changes the status |
| `ThreadedAction.UndisturbedDelivers` | kios_cpp/lib/BehaviorTree.CPP/src/action_node.cpp:188-230 | Without halt or exception the node ends with the result of the tick |
| `ThreadedAction.ExceptionWaits` | kios_cpp/lib/BehaviorTree.CPP/src/action_node.cpp:206-229 | A stored exception is thrown again by the next `executeTick`, once |
| `ThreadedAction.TickStarts` | kios_cpp/lib/BehaviorTree.CPP/src/action_node.cpp:188-230 | By the time `executeTick` returns it has started one worker if the node was IDLE, and none otherwise |
| `ThreadedAction.ResetEndsIdle` | kios_cpp/lib/BehaviorTree.CPP/src/control_node.cpp:37-62 | When a parent has halted and reset the node it is IDLE |
| `ThreadedAction.HaltLeavesNoWorker` | kios_cpp/lib/BehaviorTree.CPP/src/action_node.cpp:232-241 | When `halt` has waited, every worker ever started has finished |
| `ThreadedAction.ExceptionLeavesRunning` | kios_cpp/lib/BehaviorTree.CPP/src/action_node.cpp:206-215 | `setStatus(IDLE)` throws inside the handler too: after an exception in `tick` the node stays RUNNING without a worker until a parent resets it |
| `ThreadedAction.ExceptionHappens` | kios_cpp/lib/BehaviorTree.CPP/src/action_node.cpp:188-230 | Such a run exists |
| `ThreadedAction.InvStep` | kios_cpp/lib/BehaviorTree.CPP/src/action_node.cpp:188-241 | Every atomic step of either thread keeps the protocol invariant |
| `HaltTree.HaltWholeTree` | kios_cpp/lib/BehaviorTree.CPP/src/bt_factory.cpp:524-539 | From any statuses every node ends IDLE; below the root `onHalted` is called once for every stateful action that was RUNNING and for no other; a root that is one gets it twice. The second pass, meant to do nothing, calls it exactly for the RUNNING ones that the first did not reach through RUNNING ancestors below the root |
| `HaltTree.TreeNode.Halt` | kios_cpp/lib/BehaviorTree.CPP/src/control_node.cpp:32-35 | Halting any node settles everything below it and leaves its own status |
| `HaltTree.TreeNode.ResetChildren` | kios_cpp/lib/BehaviorTree.CPP/src/control_node.cpp:37-47 | The loop halts the running children and makes all of them IDLE |
| `HaltTree.TreeNode.ResetChild` | kios_cpp/lib/BehaviorTree.CPP/src/decorator_node.cpp:52-63 | The child is halted if it was running and is IDLE |
| `HaltTree.TreeNode.VisitHalting` | kios_cpp/lib/BehaviorTree.CPP/src/behavior_tree.cpp:41-64 | Visiting a whole tree with the halting visitor settles every node below the root |
| `Coroutines.YieldReturnsToResumer` | kios_cpp/lib/BehaviorTree.CPP/3rdparty/minicoro/minicoro.h:478-536 | When control first leaves a resumed coroutine for below, it is its own yield or return, and its resumer runs again with the resumers below unchanged |
| `Coroutines.InvRun` | kios_cpp/lib/BehaviorTree.CPP/3rdparty/minicoro/minicoro.h:1662-1770 | In every reachable state the chain repeats no coroutine, its last is the only one running, the others in it are the normal ones, all the rest are suspended or dead |
| `Coroutines.InvStep` | kios_cpp/lib/BehaviorTree.CPP/3rdparty/minicoro/minicoro.h:1662-1770 | Each operation, successful or refused, keeps that |
| `Coroutines.RunningIsCurrent` | kios_cpp/lib/BehaviorTree.CPP/3rdparty/minicoro/minicoro.h:1763-1768 | Only the current coroutine can pass the test of `mco_yield` |
| `Coroutines.DeadStaysDead` | kios_cpp/lib/BehaviorTree.CPP/3rdparty/minicoro/minicoro.h:1662-1743 | A dead coroutine stays dead as long as it exists |
| `Coroutines.RefusedExactly` | kios_cpp/lib/BehaviorTree.CPP/3rdparty/minicoro/minicoro.h:1662-1770 | Which code each operation gives, by who resumed whom: what is in the chain or dead is not resumed, only the current coroutine yields, what is in the chain is not ended from outside; what is refused changes nothing |
| `Coroutines.ThereAndBack` | kios_cpp/lib/BehaviorTree.CPP/3rdparty/minicoro/minicoro.h:478-527 | Resuming and yielding undo each other |
| `Coroutines.MadeAndEnded` | kios_cpp/lib/BehaviorTree.CPP/3rdparty/minicoro/minicoro.h:1662-1729 | What is created can be resumed, what is ended from outside is dead, and what is destroyed is gone |
| `Coroutines.BelowStays` | kios_cpp/lib/BehaviorTree.CPP/3rdparty/minicoro/minicoro.h:478-527 | What lies below a depth that the chain never goes under stays as it is |
| `Coroutines.Thread.Resume` | kios_cpp/lib/BehaviorTree.CPP/3rdparty/minicoro/minicoro.h:1731-1743 | Refuses null and whatever is not suspended; otherwise the coroutine goes on top of the chain |
| `Coroutines.Thread.Yield` | kios_cpp/lib/BehaviorTree.CPP/3rdparty/minicoro/minicoro.h:1745-1770 | Refuses with the right code, or suspends the current coroutine and returns to its resumer |
| `Coroutines.Thread.Finish` | kios_cpp/lib/BehaviorTree.CPP/3rdparty/minicoro/minicoro.h:532-536 | The current coroutine dies and its resumer runs |
| `Coroutines.Thread.JumpIn` | kios_cpp/lib/BehaviorTree.CPP/3rdparty/minicoro/minicoro.h:478-501 | Both internal assertions hold, and the links are those of the longer chain |
| `Coroutines.Thread.JumpOut` | kios_cpp/lib/BehaviorTree.CPP/3rdparty/minicoro/minicoro.h:503-527 | The assertions that are commented out in the source hold too |
| `Coroutines.Thread.Uninit` | kios_cpp/lib/BehaviorTree.CPP/3rdparty/minicoro/minicoro.h:1662-1682 | Only suspended and dead coroutines become dead this way |
| `Coroutines.Thread.Destroy` | kios_cpp/lib/BehaviorTree.CPP/3rdparty/minicoro/minicoro.h:1713-1729 | The coroutine ceases to exist, or nothing changes |
| `Coroutines.Thread.Create` | kios_cpp/lib/BehaviorTree.CPP/3rdparty/minicoro/minicoro.h:1684-1711 | A new coroutine is suspended and outside the chain |
| `CoroutineLayout.RegionsFit` | kios_cpp/lib/BehaviorTree.CPP/3rdparty/minicoro/minicoro.h:1239-1291 | At any base address header, context, storage and stack are disjoint, follow each other, are aligned after the header and end within `coro_size` |
| `CoroutineLayout.OtherStorageFits` | kios_cpp/lib/BehaviorTree.CPP/3rdparty/minicoro/minicoro.h:1239-1291 | When the storage size is changed after `mco_desc_init`, the regions fit at any base address exactly if rounding the new size gains at most 16 over the size it was set up for, less what aligning the context costs at that address |
| `CoroutineLayout.LossIsSmall` | kios_cpp/lib/BehaviorTree.CPP/3rdparty/minicoro/minicoro.h:1239-1291 | Aligning the context costs or gains less than 16 bytes, and nothing at an aligned address |
| `CoroutineLayout.DescSizes` | kios_cpp/lib/BehaviorTree.CPP/3rdparty/minicoro/minicoro.h:1593-1614 | The sizes that `mco_desc_init` computes, with the minimum and default stack sizes, when nothing wraps around |
| `CoroutineLayout.MaskClearsRemainder` | kios_cpp/lib/BehaviorTree.CPP/3rdparty/minicoro/minicoro.h:471-473 | On 64 bits the mask of the source takes away the remainder, whatever the sum it is applied to |
| `CoroutineStorage.PushedComesBack` | kios_cpp/lib/BehaviorTree.CPP/3rdparty/minicoro/minicoro.h:1786-1826 | Blocks of any sizes that were pushed come back whole in the opposite order and leave what was there before |
| `CoroutineStorage.Storage.Push` | kios_cpp/lib/BehaviorTree.CPP/3rdparty/minicoro/minicoro.h:1786-1804 | Appends all bytes or none, with the right code in every case, a null source included; the sum of sizes is that of `size_t` |
| `CoroutineStorage.Storage.Pop` | kios_cpp/lib/BehaviorTree.CPP/3rdparty/minicoro/minicoro.h:1806-1826 | Takes the last bytes in order, or nothing, and touches only the front of the destination |
| `CoroutineStorage.Storage.Peek` | kios_cpp/lib/BehaviorTree.CPP/3rdparty/minicoro/minicoro.h:1828-1844 | Gives what a pop would give and takes nothing |
| `CoroutineStorage.WrappedTest` | kios_cpp/lib/BehaviorTree.CPP/3rdparty/minicoro/minicoro.h:1791-1792 | The size test is the right one exactly when the sum does not wrap around |
| `Multipart.RoundTrip` | kios_cpp/lib/BehaviorTree.CPP/3rdparty/cppzmq/zmq_addon.hpp:220-302 | Decoding an encoded list of parts gives the parts |
| `Multipart.RejectsExactly` | kios_cpp/lib/BehaviorTree.CPP/3rdparty/cppzmq/zmq_addon.hpp:275-302 | A message is decoded exactly when it is some framing of some parts, short or long form for each; so what is decoded is consumed whole |
| `Multipart.DecodeInvertsFramed` | kios_cpp/lib/BehaviorTree.CPP/3rdparty/cppzmq/zmq_addon.hpp:275-302 | Every framing of the parts, also the long form of a small size, is decoded to them |
| `Multipart.DecodedIsFramed` | kios_cpp/lib/BehaviorTree.CPP/3rdparty/cppzmq/zmq_addon.hpp:275-302 | What is decoded was a framing of the result |
| `Multipart.ReencodingIsShortest` | kios_cpp/lib/BehaviorTree.CPP/3rdparty/cppzmq/zmq_addon.hpp:220-302 | Encoding a decoded message again never takes more bytes, and as many only if they are the same |
| `Multipart.SizeIsRight` | kios_cpp/lib/BehaviorTree.CPP/3rdparty/cppzmq/zmq_addon.hpp:222-256 | The size computed in the first pass is the number of bytes written |
| `Multipart.ReadWritten` | kios_cpp/lib/BehaviorTree.CPP/3rdparty/cppzmq/zmq_addon.hpp:77-102 | Reading a size in network order inverts writing it |
| `Multipart.WriteRead` | kios_cpp/lib/BehaviorTree.CPP/3rdparty/cppzmq/zmq_addon.hpp:77-102 | Writing inverts reading |
| `Multipart.MostSignificantFirst` | kios_cpp/lib/BehaviorTree.CPP/3rdparty/cppzmq/zmq_addon.hpp:77-102 | The most significant byte of a size comes first |
| `Multipart.EncodeMessage` | kios_cpp/lib/BehaviorTree.CPP/3rdparty/cppzmq/zmq_addon.hpp:220-258 | Throws exactly when a part is longer than 32 bits tell; otherwise the two passes write the encoding, and the assertion holds |
| `Multipart.DecodeMessage` | kios_cpp/lib/BehaviorTree.CPP/3rdparty/cppzmq/zmq_addon.hpp:275-302 | The loop with its bounds checks computes the decoding, and the assertion holds |
| `TreeXml.ReloadsExactly` | kios_cpp/lib/BehaviorTree.CPP/src/xml_parsing.cpp:907-983 | A loaded tree, written and read again under the same ID, has the same expanded shape and registration IDs exactly when all nodes of its trees have readable names (no keyword of the format, children where the format demands them) and every subtree node carries the ID of its tree; otherwise reading throws. Writing follows a null pointer exactly when a decorator has no child |
| `TreeXmlDocuments.VerifiedReloads` | kios_cpp/lib/BehaviorTree.CPP/src/xml_parsing.cpp:907-983 | For a verified document, by its elements alone: writing follows a null pointer exactly when an `Action` or `Condition` that is kept names a decorator; otherwise the tree comes back exactly when each subtree is an element `SubTree` and every kept element names a node that is readable with the children it keeps |
| `TreeXmlDocuments.ReadableExactly` | kios_cpp/lib/BehaviorTree.CPP/src/xml_parsing.cpp:708-811 | The loaded nodes are readable exactly when all kept elements name nodes that are |
| `TreeXmlDocuments.NamedExactly` | kios_cpp/lib/BehaviorTree.CPP/src/xml_parsing.cpp:579-587 | The subtree nodes of a loaded element carry the IDs of their trees exactly when no other keyword element has the ID `SubTree` |
| `TreeXmlDocuments.GivenExactly` | kios_cpp/lib/BehaviorTree.CPP/src/xml_parsing.cpp:311-433 | Verification lets a decorator without a child through exactly as an `Action` or `Condition` |
| `TreeXmlDocuments.SubtreeAsAction` | kios_cpp/lib/BehaviorTree.CPP/src/xml_parsing.cpp:579-587 | `<Action ID="SubTree"/>` is verified and loaded, and reading the written tree throws |
| `TreeXmlDocuments.DecoratorAsAction` | kios_cpp/lib/BehaviorTree.CPP/src/xml_parsing.cpp:967-973 | `<Action ID="Inverter"/>` is verified and loaded, and writing the tree follows a null pointer |
| `TreeXml.LoadInvertsUnload` | kios_cpp/lib/BehaviorTree.CPP/src/xml_parsing.cpp:708-811 | The element written for a readable node is loaded to that node, or throws exactly when a subtree node below it does not carry the ID of its tree |
| `TreeXmlLoads.LoadsExactly` | kios_cpp/lib/BehaviorTree.CPP/src/xml_parsing.cpp:708-811 | Loading throws exactly when something from the element down has no name the factory knows, refers to no tree, or is a decorator with two children |
| `TreeXmlLoads.LoadMeans` | kios_cpp/lib/BehaviorTree.CPP/src/xml_parsing.cpp:708-811 | What a loaded element becomes: by its name, its ID and its children in their order |
| `TreeXmlLoads.VerifiedByCount` | kios_cpp/lib/BehaviorTree.CPP/src/xml_parsing.cpp:311-433 | What verification asks of one element: known name, ID of a keyword, number of children |
| `TreeXml.VerifiedExactly` | kios_cpp/lib/BehaviorTree.CPP/src/xml_parsing.cpp:311-433 | The written form of a part is verified exactly when the part is readable |
| `TreeXml.WrittenIsAcyclic` | kios_cpp/lib/BehaviorTree.CPP/src/xml_parsing.cpp:976-983 | The written document refers to its trees without a cycle, so loading it ends |
| `TreeXml.RootsAreWritten` | kios_cpp/lib/BehaviorTree.CPP/src/xml_parsing.cpp:222-236 | Several written trees of one ID are alike, so it does not matter that the last one counts |
| `TreeXml.EnteredAreLoaded` | kios_cpp/lib/BehaviorTree.CPP/src/xml_parsing.cpp:786-808 | The trees appended while loading are the loaded trees of their IDs, and all attached ones are among them |
| `TreeXml.RegisterTrees` | kios_cpp/lib/BehaviorTree.CPP/src/xml_parsing.cpp:222-236 | The loop leaves the last tree of each ID |
| `TreeLoader.InstantiateTree` | kios_cpp/lib/BehaviorTree.CPP/src/xml_parsing.cpp:442-479 | On a new tree the node numbers are 1 to N in order while N fits 16 bits, and no two are alike exactly while N is at most 65536 |
| `TreeLoader.UidsCount` | kios_cpp/lib/BehaviorTree.CPP/src/bt_factory.cpp:603-606 | The 16-bit counter gives 1 to N in order, and repeats exactly when there are more nodes than numbers |
| `TreeLoader.CreatedInPreorder` | kios_cpp/lib/BehaviorTree.CPP/src/xml_parsing.cpp:719-810 | Nodes are created in the preorder of the loaded tree, and trees in the order in which they occur in it, exactly when no leaf element has children; otherwise there are more nodes than the tree holds |
| `TreeLoader.OutputTree.RecursiveStep` | kios_cpp/lib/BehaviorTree.CPP/src/xml_parsing.cpp:719-791 | Loads the element as specified, and appends and numbers the nodes in the order of their creation |
| `TreeLoader.OutputTree.CreateSubtree` | kios_cpp/lib/BehaviorTree.CPP/src/xml_parsing.cpp:793-810 | Appends the tree before its nodes; throws when there is no tree of that ID |
| `TreeLoader.OutputTree.Children` | kios_cpp/lib/BehaviorTree.CPP/src/xml_parsing.cpp:731-735 | The loop over child elements loads them in order |
| `TreeLoader.OutputTree.GetUID` | kios_cpp/lib/BehaviorTree.CPP/src/bt_factory.cpp:603-606 | The counter goes up by one on 16 bits |
| `SkillGating.EveryRunIsGated` | kios_cpp/src/node/tree_node.cpp:524-801 | Over every run of callbacks, whatever services reply, messages say and ticks return, and however the power is turned meanwhile: a start comes right after a switch that made the last action the current one, and never while an earlier start still waits for a message; what the tree is told of success; and if the power is turned between callbacks only, no tick and no command with it off |
| `SkillGating.StartsAreSeparated` | kios_cpp/src/node/tree_node.cpp:714-760 | Between any two starts a message was received |
| `SkillGating.StuckForever` | kios_cpp/src/library/src/kios_utils/kios_utils.cpp:42-47 | After an error or a failure nothing is ticked, stopped or started any more, whatever is received and even if the power is turned on again |
| `SkillOutcomes.StopsAreCaused` | kios_cpp/src/node/tree_node.cpp:615-697 | Over every run a stop is sent only after a tick that succeeded or the message FINISH, with nothing but other stops in between |
| `SkillOutcomes.NothingFollowsFailure` | kios_cpp/src/node/tree_node.cpp:600-635 | Over every run nothing but messages follows a tick that failed or ended in an unforeseen way, unless the tree state shows an error after it; nor a message that tells of an error, a failure or nothing known |
| `SkillOutcomes.FailedTickAgain` | kios_cpp/src/node/tree_node.cpp:602-607 | With an error in the tree state a failed tick turns the power off only: turned on again, the node ticks again |
| `SkillOutcomes.SuccessThenStop` | kios_cpp/src/node/tree_node.cpp:615-697 | After a successful tick the next callback with the power on and no message sends the stop, if the service is ready, and turns the power off if it is accepted; else the node is in error |
| `SkillOutcomes.TickOutcome` | kios_cpp/src/node/tree_node.cpp:524-760 | What a callback that ticks adds and where it leads, for every result of the tick, every switch and every reply |
| `SkillOutcomes.OtherOutcome` | kios_cpp/src/node/tree_node.cpp:640-708 | The same for a callback that does not tick, by message and phase |
| `SkillOutcomes.RefusedAtFirst` | kios_cpp/src/node/tree_node.cpp:531-565 | Where objects or archive are refused, or the objects are not grounded, in the first callback, nothing is ever ticked, stopped or started |
| `SkillOutcomes.AcceptedAtFirst` | kios_cpp/src/node/tree_node.cpp:531-565 | Where all is accepted the first callback is like every later one |
| `SkillGating.PowerAtEvents` | kios_cpp/src/node/tree_node.cpp:524-760 | In every callback a tick, a stop or a start has the power off exactly when it was last turned off from outside after the test at the start |
| `SkillGating.PoweredWhenQuiet` | kios_cpp/src/node/tree_node.cpp:524-590 | Without such changes no event of any run has the power off |
| `SkillGating.StartedWithoutPower` | kios_cpp/src/node/tree_node.cpp:714-760 | Turned off while the tree is ticked, the power does not hold back the start that follows |
| `SkillGating.InvExecuted` | kios_cpp/src/node/tree_node.cpp:714-760 | One execution of the tree keeps the gates |
| `SkillGating.SuccessToldTwice` | kios_cpp/src/node/tree_node.cpp:644-662 | The success flag is taken back in a pause cycle only: a run in which the next action is told of the success of the one before |
| `SkillGating.TreeNode.TimerCallback` | kios_cpp/src/node/tree_node.cpp:524-590 | The callback does the steps of its specification in order, and keeps the gates |
| `SkillGating.TreeNode.TreeCycle` | kios_cpp/src/node/tree_node.cpp:640-708 | One cycle by phase |
| `SkillGating.TreeNode.ExecuteTree` | kios_cpp/src/node/tree_node.cpp:714-760 | Tick, judge, check for a switch, request the start |
| `SkillGating.TreeNode.CheckActionSwitch` | kios_cpp/src/node/tree_node.cpp:768-801 | A switch is made on success or on another phase, and leaves the last action equal to the current one |
| `SkillGating.TreeNode.SwitchTreePhase` | kios_cpp/src/library/src/kios_utils/kios_utils.cpp:42-86 | Switches by name, but not out of an error or a failure |
| `SkillGating.TreeNode.Spin` | kios_cpp/src/node/tree_node.cpp:524-590 | A run of callbacks and changes of the power, between them and in the middle of them, does what its specification says, and keeps the gates |
| `SkillCommands.Commander.IssueCommand` | kios_cpp/src/node/commander.cpp:132-161 | A task is started only right after the old one was stopped with success |
| `SkillCommands.RequestsExactly` | kios_cpp/src/node/commander.cpp:132-161 | What is sent for each command: a request to stop before a new task, the new task exactly when that was granted, a plain stop when nothing is to follow |
| `SkillCommands.Commander.CommandService` | kios_cpp/src/node/commander.cpp:110-130 | The service is accepted whenever its context can be read, whether or not a task was started |

## Left out

- WildcardTheorems.MatchesExact: stated for bodies without nested alternatives of varying width, where the prefix is the shortest; where it depends on the order of the alternatives `MatchesOrdered` states it.
- Wildcards: custom cards, disabled cards and the position results of the top-level call.
- tinyxml2: comments, CDATA, declarations, unknown nodes, the byte order mark, whitespace collapsing, line numbers, error texts, number conversion and files; the lengths of texts are unbounded, and the printer's cut at `INT_MAX` is modelled.
- XmlParserLoops.ParseDeepLoop: names read during the parse are read again afterwards; the source's flag spares that, and the second read writes the same terminator.
- tinyxml2: `DeepClone`, growth of `DynArray`, and error paths of the parser, which delete nodes without telling the pool and then clear it.
- MemPools: the memory of a pool is a map from block and index, not raw bytes; the counters are unbounded.
- XmlDomDocument: inserting a node into itself or its descendants, or the document into a node, is excluded; the source does not check it and makes a cycle or follows a null pointer.
- XmlAttributes: the attributes of an element are a sequence; the pointers from one to the next, and the attributes the parser makes, are not modelled in the pools.
- XmlDom: a node is created as a new object in its slot; memory is not reused for objects.
- Blackboard: mutexes (operations are atomic), `clear()`, dead parents, and remapping set up after first use.
- Blackboard.Run: taken for boards without stranded keys; after a creation for a stranded key, which stores a null entry, nothing is said of the boards.
- Blackboard.Entry.Accept: conversion of values is a partial function given as a parameter; which values convert is not modelled.
- Threaded action: the wake-up signal and the results of `tick` beyond their status; `StatefulActionNode::tick`, `SyncActionNode::executeTick`, `Tree::tickRoot` and the checks of `TreeNode::executeTick` are single branches or short loops; coroutine actions.
- Halting: `haltNode` scripts on `ON_HALTED`, and control nodes whose own `halt` does not end in `ControlNode::halt`.
- Coroutines.Thread.Yield: the stack overflow check is a parameter; which addresses lie on which stack is not modelled.
- minicoro: assembly, fibers, asyncify, sanitizers, allocation callbacks and migration between threads.
- Multipart.EncodeMessage: the total size is unbounded; wrap-around of `size_t` over many views of one buffer is not modelled.
- TreeXml.ReloadsExactly: taken for documents without a tree whose ID is empty; a written subtree node without an ID refers to such a tree.
- Tree XML: ports, remapping, scripts, instance names, substitution rules, includes, the section `TreeNodesModel`, and documents whose subtrees refer to themselves (the loader does not end on them).
- SkillGating: ROS plumbing, JSON and logging; a change of the power from outside takes effect between two steps of the callback, not within one.
- The commander's connection: what was sent is a trace; lost messages are replies that are missing.
- Sequence, Fallback, Parallel and the other control and decorator nodes, the script grammar, Python nodes, sockets and loggers: wrappers or branches without a property across functions.
