# TinyXML and libcurl, modelled and proved in Dafny

Two libraries that the repository carries under `trunk/3rdparty`: TinyXML, which reads and writes XML
trees, and parts of libcurl. `dafny verify dfyconfig.toml` checks everything.

Characters of a C string are Dafny `char`s below 256, none of them NUL; a pointer into a string is the
rest of the string, and the empty rest is the terminating NUL. Null pointers, pointers that have left
their string and loops that would not end are outcomes of their own, never preconditions. `Sequences` holds
the one fact about sequences that all modules share, `Options` the type of a value that may be missing.

## TinyXML

| file | what it holds |
|---|---|
| `XmlText` | characters, names, references, `GetEntity`, `GetChar`, `ReadText`: loops, each against a specification |
| `XmlReference` | right-to-left wrapping accumulation against the positional value; the UTF-8 form against a decoder |
| `XmlEscape` | `EncodeString`; what is escaped comes back, and exactly when it does |
| `XmlCondense` | white-space condensing: tidy texts, words, idempotence |
| `XmlTree` | trees, their printed text, and the parser as mutually recursive functions |
| `XmlRoundTrip` | the main theorem: what the parser makes of a printed tree, and when it is the same tree |
| `XmlLoose` | tags that the printer would not write: white space anywhere, either quote or none, raw characters; and what is not well formed |
| `XmlLayout` | the lines of printed XML, and how deep they are indented |
| `XmlReparse` | the other way round: text that is parsed, printed and parsed again |
| `XmlDom` | nodes on the heap: doubly linked children, cloning, insertion, replacement, removal |
| `XmlEdits` | runs of such edits, and the trees that they amount to |
| `XmlPrinter` | the printing visitor and the walk over the heap |
| `XmlParser` | the parser that builds nodes on the heap |
| `XmlDocument` | whole documents, and printing one into the text that another is parsed from |
| `XmlAttributes` | the circular attribute list with its sentinel, as an insertion-ordered map |
| `XmlPosition` | row and column tracking: one scan however often it is stamped, and what the row and the column count |
| `XmlLineEnds` | the lazy end-of-line loop of `LoadFile` |

A node on the heap *shows* a tree (`XmlDom.Shows`) inside a set of nodes that is *well linked*
(`XmlDom.WellLinked`): the forward walk over the children is a sequence, the backward walk is its
reverse, every child's parent is the node. The parser and the printer are proved on trees first
(`XmlRoundTrip`), and the heap versions are proved to agree with the tree versions, so
`XmlDocument.PrintAndParse` speaks about the real pointers.

For edits, nodes are named by the way to them from a root (`XmlEdits.Place`). `XmlEdits.Apply` says what
an edit makes of the trees, without a heap; `XmlEdits.Run` proves that after any sequence of edits the
links are well formed and the nodes show just these trees.

Four facts that a reader of the source might not expect, each with its exact condition:

* `EncodeString` leaves anything that looks like `&#x` alone, so a text with such a stretch never comes
  back from being escaped and read, in any encoding (`XmlEscape.EscapeRoundTrip`).
* `TiXmlAttribute::Next` takes an attribute whose name and value are both empty for the sentinel, so
  printing and cloning stop there; `First` does not (`XmlAttributes.VisitsAll`, `XmlTree.CloneIsEqual`).
* A condensing parser gives back the printed tree unchanged exactly if its texts are tidy; a parser that
  keeps white space does, exactly if the tree was printed as a stream or no plain text has siblings
  (`XmlRoundTrip.UnchangedRoundTrip`). Text that such a parser made of
  `&amp;#x` is printed in a way that reads as something else (`XmlReparse.ReferenceReread`).
* `TiXmlDocument::Parse` returns null for a failure, and also for a success when no white space follows
  the last node, so for every document printed without line breaks (`XmlDocument.PrintedEndsNull`).

## libcurl

| file | what it holds |
|---|---|
| `Gzip` | the gzip header check and the state machine that is fed chunks, for zlib before 1.2.0.4 and after |
| `Glob` | the wildcard matcher and the state machine that reads its bracket sets: loops, each against a specification |
| `GlobSet` | how bracket sets are written, what the state machine makes of them, and when that is what they say |
| `GlobHang` | when reading a bracket set never ends, for every text |
| `GlobMatch` | the relation that a pattern stands for, and what the matcher answers |
| `Resolver` | the resolver thread and its owner as interleaved steps over shared memory; the poll timer |
| `Base64` | encoder and decoder over their buffers; both round trips |
| `Ntlm` | the type-3 message in its fixed buffer, and a receiver that reads it back |
| `ConnCache` | connections, bundles and the index, with counts and back pointers |

The resolver is a state machine in which every access to shared memory is one step. A state holds every
block ever allocated, with the thread that was given its address, so that a use after free would be
visible; the invariant covers all runs, with any number of resolves one after another.

Where the code does more or less than its comments or documentation say, the model follows the code:

* A comment in `base64.c` says that the last quantum may be read slightly past the end of the string.
  It never is: the number of quantums is rounded down (`Base64.Base64Decode` reads inside the string).
* The wildcard documentation promises named classes such as `[[:alnum:]]` in a set. With several classes
  in one set only the first in a fixed order is tested: the set means what it says exactly when that one
  has what the others have, or the set writes it out (`GlobSet.SetMeans`, `GlobSet.ClassesMean`).
* A dash written before a range is taken out with the range's own dash (`GlobSet.DashIsLost`).
* At the end of the subject a negated set accepts the terminating NUL and moves past it: the matcher
  leaves its subject exactly when it does not match and some beginning of the pattern in front of a
  negated set does (`GlobMatch.FnmatchRunsOff`).
* Reading a set never ends exactly when, behind things that are got over, a range has no end or one below
  its start (`GlobHang.SetNeverRead`, for every text). For sets of the usual form this is: some range
  descends, or the pattern ends behind its dash, and no range before it is at fault (`GlobSet.SetHangs`,
  `GlobSet.CutOffRangeHangs`).

## Model

| member | source | states |
|---|---|---|
| XmlRoundTrip.RoundTrip | trunk/3rdparty/tinyxml/tinyxmlparser.cpp:913-1072 | For every valid tree, encoding, layout of white space and white-space mode: parsing what the printer made of a node gives that tree back, its texts condensed or with exactly the line breaks and indentation around them, and the parser stops where the node's text ends |
| XmlRoundTrip.UnchangedRoundTrip | trunk/3rdparty/tinyxml/tinyxml.cpp:1406-1487 | The tree comes back unchanged if and only if, for a parser that condenses, every plain text is tidy (no space at an end, no two in a row), and for one that keeps white space, the layout is that of stream printing or no plain text has siblings |
| XmlRoundTrip.DeliveredStable | trunk/3rdparty/tinyxml/tinyxmlparser.cpp:1019-1072 | What the parser delivers for a printed tree is the tree itself exactly when the tree is stable for that layout and mode |
| XmlRoundTrip.AllDeliveredStable | trunk/3rdparty/tinyxml/tinyxmlparser.cpp:1019-1072 | The same for the children of a node |
| XmlRoundTrip.NodeParsed | trunk/3rdparty/tinyxml/tinyxmlparser.cpp:913-1017 | By induction over the tree: a printed node, followed by anything, is read as that node and leaves that anything |
| XmlRoundTrip.KidsParsed | trunk/3rdparty/tinyxml/tinyxmlparser.cpp:1019-1072 | Printed children, indented or not, are read back in order up to the end tag of their parent, whether the parser condenses or keeps the white space around their texts |
| XmlRoundTrip.TextParsed | trunk/3rdparty/tinyxml/tinyxmlparser.cpp:1019-1048 | Escaped text with white space around it is read as one text child, condensed or with that white space, and the `<` after it stays |
| XmlRoundTrip.CoreOnto | trunk/3rdparty/tinyxml/tinyxml.cpp:1406-1487 | The text written from left to right with a continuation equals the printer's text followed by that continuation |
| XmlRoundTrip.AttrParsed | trunk/3rdparty/tinyxml/tinyxmlparser.cpp:1190-1254 | A printed attribute, whichever quote its value calls for, is read back with its name and value and nothing after the quote is consumed |
| XmlRoundTrip.AttrsParsed | trunk/3rdparty/tinyxml/tinyxmlparser.cpp:935-1017 | All printed attributes of a start tag are read back in order |
| XmlRoundTrip.CommentParsed | trunk/3rdparty/tinyxml/tinyxmlparser.cpp:1141-1188 | A comment without `-->` inside is read back and the text after it is left |
| XmlRoundTrip.CDataParsed | trunk/3rdparty/tinyxml/tinyxmlparser.cpp:1283-1302 | A CDATA section without `]]>` inside is read back and the text after it is left |
| XmlRoundTrip.UnknownParsed | trunk/3rdparty/tinyxml/tinyxmlparser.cpp:1092-1118 | An unknown tag is read back up to its `>` |
| XmlLoose.AttrRead | trunk/3rdparty/tinyxml/tinyxmlparser.cpp:1190-1254 | An attribute is read whatever white space stands around its equals sign, with its value escaped or raw in either quote, or bare up to white space, `/` or `>` |
| XmlLoose.ValueRead | trunk/3rdparty/tinyxml/tinyxmlparser.cpp:1225-1251 | A value in any of these forms is read up to its end |
| XmlLoose.TagRead | trunk/3rdparty/tinyxml/tinyxmlparser.cpp:935-1017 | All attributes of a tag are read in order, however each is written and whatever white space stands in front of it |
| XmlLoose.LooseElement | trunk/3rdparty/tinyxml/tinyxmlparser.cpp:913-1017 | A start tag written in any of these ways, followed by what reads as children and by the end tag, is read as that element |
| XmlLoose.LooseEmpty | trunk/3rdparty/tinyxml/tinyxmlparser.cpp:944-958 | An empty tag written in any of these ways, white space in front of `/>` included, is read as the element without children |
| XmlLoose.TagSpace | trunk/3rdparty/tinyxml/tinyxmlparser.cpp:935-945 | White space in front of an attribute, `>` or `/>` changes nothing |
| XmlLoose.RepeatedAttr | trunk/3rdparty/tinyxml/tinyxmlparser.cpp:1003-1010 | A second attribute of one name is an error |
| XmlLoose.AttrNoEquals | trunk/3rdparty/tinyxml/tinyxmlparser.cpp:1205-1213 | A name that no equals sign follows is an error |
| XmlLoose.AttrNotClosed | trunk/3rdparty/tinyxml/tinyxmlparser.cpp:1225-1234 | A quoted value without its closing quote runs out of the text |
| XmlLoose.WrongEndTag | trunk/3rdparty/tinyxml/tinyxmlparser.cpp:960-983 | An end tag of another name, or with white space in it, is an error |
| XmlLoose.NotClosed | trunk/3rdparty/tinyxml/tinyxmlparser.cpp:1092-1188 | A comment or CDATA section without its end mark runs out of the text; an unknown tag may end with the text |
| XmlLoose.Kinds | trunk/3rdparty/tinyxml/tinyxmlparser.cpp:718-788 | A declaration is recognised in any case of letters; other `<?` and `<!` tags are unknown |
| XmlLoose.CharacterKinds | trunk/3rdparty/tinyxml/tinyxmlparser.cpp:123-156 | Which bytes are white space, which may start a name and which may follow in it, by their codes |
| XmlLoose.LeadBytes | trunk/3rdparty/tinyxml/tinyxmlparser.cpp:62-80 | Which bytes start a character of two, three and four bytes |
| XmlReparse.ParsedIsValid | trunk/3rdparty/tinyxml/tinyxmlparser.cpp:913-1072 | Any tag that the parser reads, a stray end tag apart, gives a tree that is valid exactly when its texts and attribute values read back: names, comments, sections and the neighbours of texts are always in order |
| XmlReparse.ParsePrintParse | trunk/3rdparty/tinyxml/tinyxmlparser.cpp:913-1072 | Parse, print in any layout, parse again: the tree comes back with its white space as delivered, and unchanged exactly when it is stable, whenever its texts read back |
| XmlReparse.RawAvoids | trunk/3rdparty/tinyxml/tinyxmlparser.cpp:1171-1186 | What is copied up to the first end tag does not hold the end tag |
| XmlReparse.OneTextReread | trunk/3rdparty/tinyxml/tinyxml.cpp:50-66 | For an element with one text, in every encoding, layout and white-space mode: the printed element is read back as it was if and only if the text has nothing that looks like a hexadecimal reference and, for a parser that condenses, is tidy |
| XmlReparse.ReadNeverLonger | trunk/3rdparty/tinyxml/tinyxmlparser.cpp:515-567 | A text with something that looks like a reference never comes back whole, whether white space is kept or condensed |
| XmlReparse.ReferenceReread | trunk/3rdparty/tinyxml/tinyxml.cpp:50-66 | For a parser that keeps white space: an element read from a text with `&amp;#x` in front prints as something that does not read back as that element |
| XmlDocument.DocumentRoundTrip | trunk/3rdparty/tinyxml/tinyxmlparser.cpp:620-699 | A printed document with valid children parses as a document with the same children, as delivered in that layout and mode, to the end of the text |
| XmlDocument.TextBehindDocument | trunk/3rdparty/tinyxml/tinyxmlparser.cpp:663-699 | Text behind the last node of a printed document ends it and is left, without an error |
| XmlDocument.MarkedDocument | trunk/3rdparty/tinyxml/tinyxmlparser.cpp:644-656 | Behind a byte order mark a printed document is read as UTF-8 if no encoding is stated; if another one is stated there is no document |
| XmlDocument.UnchangedDocument | trunk/3rdparty/tinyxml/tinyxmlparser.cpp:620-699 | A printed document parses as the same document exactly when its children are stable |
| XmlDocument.ParseDocumentNode | trunk/3rdparty/tinyxml/tinyxmlparser.cpp:620-699 | The heap document parser, which looks for a byte order mark when no encoding is given, returns the pointer that the specification says, null also on success when nothing follows the last node; whatever the outcome the document shows a finite tree in a well-linked set of new nodes, on success the parsed one |
| XmlDocument.ReadTopNodes | trunk/3rdparty/tinyxml/tinyxmlparser.cpp:663-690 | The loop over top-level nodes agrees with the specification, the null pointer at the end of the text included, and every node it made is linked, the failed one too |
| XmlDocument.PrintAndParse | trunk/3rdparty/tinyxml/tinyxml.cpp:910-918 | Printing a document on the heap and parsing the text into a second one gives the same tree, as delivered, in nodes of its own; the pointer returned is null exactly when the layout has no line breaks, else the end of the text |
| XmlDocument.PrintedEndsNull | trunk/3rdparty/tinyxml/tinyxmlparser.cpp:688-698 | Whatever pointer agrees with the specification on a printed document is null exactly when no line break follows the last node |
| XmlEscape.EncodeString | trunk/3rdparty/tinyxml/tinyxml.cpp:43-103 | The loop over the string, with its passed-through `&#x` stretch, writes exactly the escaped form; `XmlEscape.EscapedCharacters` spells that form out |
| XmlEscape.EscapedCharacters | trunk/3rdparty/tinyxml/tinyxml.cpp:66-103 | The five special characters are written as their entities, a control character as a reference with two upper-case hexadecimal digits, any other character as it is |
| XmlEscape.PassThrough | trunk/3rdparty/tinyxml/tinyxml.cpp:50-66 | The stretch copied unescaped ends at its semicolon or at the last byte |
| XmlEscape.EscapeRoundTrip | trunk/3rdparty/tinyxml/tinyxmlparser.cpp:515-567 | In every encoding, well-formed text comes back from escaping and reading, with the reader just past the end tag, if and only if it has nothing that looks like a hexadecimal reference |
| XmlEscape.KeepEscaped | trunk/3rdparty/tinyxml/tinyxmlparser.cpp:522-533 | The same in every encoding for well-formed text: keep-white-space reading returns the text and consumes the end tag |
| XmlEscape.KeepEscapedOnto | trunk/3rdparty/tinyxml/tinyxmlparser.cpp:522-533 | The same in front of anything: reading goes on behind the text with the text in front of what it then reads |
| XmlEscape.KeepNeverLonger | trunk/3rdparty/tinyxml/tinyxmlparser.cpp:399-480 | In every encoding, a well-formed text with something that looks like a reference never comes back whole: what is read is shorter, or reading ends elsewhere |
| XmlEscape.CharAtEscapedText | trunk/3rdparty/tinyxml/tinyxml.h:374-414 | One read from escaped text gives back the first character of the original and leaves the rest still escaped |
| XmlText.ReadText | trunk/3rdparty/tinyxml/tinyxmlparser.cpp:515-567 | Both loops of ReadText compute the specified reading, including its null, unterminated and out-of-string outcomes |
| XmlText.GetChar | trunk/3rdparty/tinyxml/tinyxml.h:374-414 | Copies one character or hands a reference on, as specified for every text and encoding |
| XmlText.GetEntity | trunk/3rdparty/tinyxml/tinyxmlparser.cpp:399-480 | Numeric and named references, with the error outcomes, agree with the specification; `XmlEscape.PredefinedEntities` and `XmlReference.NumericReference` say what it reads |
| XmlEscape.PredefinedEntities | trunk/3rdparty/tinyxml/tinyxmlparser.cpp:40-46 | Each of the five entities, spelled out, reads as its character and nothing behind it is consumed, in every encoding (section 4.6 of XML 1.0) |
| XmlEscape.StrangeEntity | trunk/3rdparty/tinyxml/tinyxmlparser.cpp:463-480 | An ampersand that starts no reference and none of the five names is dropped, and what follows is read as text |
| XmlText.WeighDigits | trunk/3rdparty/tinyxml/tinyxmlparser.cpp:411-448 | The right-to-left digit loop accepts exactly the digit strings of the radix and accumulates with wrap-around as specified |
| XmlText.AddAssociates | trunk/3rdparty/tinyxml/tinyxmlparser.cpp:411-448 | Wrapping addition may be regrouped, so the loop may add digits from the right |
| XmlText.ConvertUTF32ToUTF8 | trunk/3rdparty/tinyxml/tinyxmlparser.cpp:82-120 | The fall-through switch writes the specified byte form of every code |
| XmlText.SkipWhiteSpace | trunk/3rdparty/tinyxml/tinyxmlparser.cpp:294-331 | Skips white space and, in UTF-8, the three marks, and nothing else; null only for the empty text |
| XmlText.ReadName | trunk/3rdparty/tinyxml/tinyxmlparser.cpp:365-397 | Reads the longest run of name characters; null exactly when no name starts |
| XmlReference.WrappingIsPositional | trunk/3rdparty/tinyxml/tinyxmlparser.cpp:411-448 | With any weight, the wrapping right-to-left sum equals weight times the positional value whenever that fits 32 bits, leading zeros included |
| XmlReference.AccumulateIsPositional | trunk/3rdparty/tinyxml/tinyxmlparser.cpp:411-448 | The accumulated value of a reference equals its positional value |
| XmlReference.NumericReference | trunk/3rdparty/tinyxml/tinyxmlparser.cpp:399-463 | A hexadecimal or decimal reference with any digits reads as the code of its positional value, and reading resumes just past the semicolon |
| XmlReference.ByteReference | trunk/3rdparty/tinyxml/tinyxmlparser.cpp:453-463 | Without UTF-8 a reference reads as one byte, its code modulo 256 |
| XmlReference.Utf8RoundTrip | trunk/3rdparty/tinyxml/tinyxmlparser.cpp:62-120 | For every code up to 0x10FFFF, decoding the bytes written (section 3 of RFC 3629) gives the code, and the byte table at the lead byte gives their number |
| XmlReference.ScalarReference | trunk/3rdparty/tinyxml/tinyxmlparser.cpp:399-463 | A reference to any scalar value reads as bytes that decode to that value and that read as one character again |
| XmlCondense.CondenseEscaped | trunk/3rdparty/tinyxml/tinyxmlparser.cpp:534-563 | The condensing loop over escaped text with trailing white space reads the text with its runs of spaces squeezed, up to the end tag |
| XmlCondense.CondenseKeeps | trunk/3rdparty/tinyxml/tinyxmlparser.cpp:534-563 | Condensing changes a text exactly when it is not tidy |
| XmlCondense.CondenseIsWords | trunk/3rdparty/tinyxml/tinyxmlparser.cpp:294-331 | On text without references, in every encoding, condensing equals splitting at white space, a leading mark skipped, and joining the words with single spaces |
| XmlCondense.CondenseIsIdempotent | trunk/3rdparty/tinyxml/tinyxmlparser.cpp:534-563 | Condensing what was condensed changes nothing, in every encoding |
| XmlCondense.WordsAreWords | trunk/3rdparty/tinyxml/tinyxmlparser.cpp:534-563 | What lies between white space is non-empty and has no white space in it |
| XmlCondense.SqueezeNotBlank | trunk/3rdparty/tinyxml/tinyxmlparser.cpp:1391-1397 | A text that is not blank stays so when condensed, so it is not dropped on the way back |
| XmlTree.CloneIsEqual | trunk/3rdparty/tinyxml/tinyxml.cpp:624-660 | A clone equals its original if and only if no attribute is hidden from attribute iteration |
| XmlTree.CloneAt | trunk/3rdparty/tinyxml/tinyxml.cpp:624-641 | The children of a clone are the clones of the children, in order |
| XmlDom.Node.LinkEndChild | trunk/3rdparty/tinyxml/tinyxml.cpp:144-166 | The child sequence gains the node at its end, the links stay well formed both ways, and a document is refused |
| XmlDom.Node.InsertEndChild | trunk/3rdparty/tinyxml/tinyxml.cpp:168-178 | A fresh copy becomes the last child; every node that showed a finite tree still does, even when a node is inserted under itself |
| XmlDom.Node.InsertBeforeChild | trunk/3rdparty/tinyxml/tinyxml.cpp:180-204 | A copy takes the place before the given child, and every node that showed a finite tree still does; refused exactly when there is none, it is not a child here, or a document is inserted |
| XmlDom.Node.InsertAfterChild | trunk/3rdparty/tinyxml/tinyxml.cpp:206-230 | A copy takes the place after the given child, and every node that showed a finite tree still does; with the same refusals |
| XmlDom.Node.ReplaceChild | trunk/3rdparty/tinyxml/tinyxml.cpp:232-256 | A copy takes the place of the child, which leaves the heap with all below it; the rest stays well linked; every tree that remains stays one unless a document was put in, and this node stays a tree exactly when it was not |
| XmlDom.Node.RemoveChild | trunk/3rdparty/tinyxml/tinyxml.cpp:258-276 | The child leaves the sequence and the heap with all below it; the rest stays well linked, and every node that remains and showed a finite tree still does |
| XmlDom.Node.LinkBefore | trunk/3rdparty/tinyxml/tinyxml.cpp:190-203 | The pointer assignments of an insertion before a child keep the forward and backward walks equal to the edited sequence |
| XmlDom.Node.LinkAfter | trunk/3rdparty/tinyxml/tinyxml.cpp:216-229 | The pointer assignments of an insertion after a child do the same, also at the end of the list |
| XmlDom.Node.LinkInstead | trunk/3rdparty/tinyxml/tinyxml.cpp:241-255 | The pointer assignments of a replacement do the same, at both ends of the list and in between |
| XmlDom.Node.Unlink | trunk/3rdparty/tinyxml/tinyxml.cpp:263-275 | The pointer assignments of a removal do the same, down to the empty list |
| XmlDom.Node.FirstChild | trunk/3rdparty/tinyxml/tinyxml.cpp:278-285 | The forward walk finds the first child with the value, or there is none |
| XmlDom.Node.LastChild | trunk/3rdparty/tinyxml/tinyxml.cpp:287-294 | The backward walk finds the last child with the value, or there is none |
| XmlDom.Node.Clone | trunk/3rdparty/tinyxml/tinyxml.cpp:653-660 | The clone is a set of new nodes, well linked, that shows the cloned tree; the original is untouched |
| XmlDom.Node.CopyChildren | trunk/3rdparty/tinyxml/tinyxml.cpp:624-641 | Every child is cloned and linked in order under the target |
| XmlDom.Node.CopyAttributes | trunk/3rdparty/tinyxml/tinyxml.cpp:627-634 | The attributes that iteration shows are set on the target in the same order |
| XmlDom.Node.SetAttribute | trunk/3rdparty/tinyxml/tinyxml.cpp:545-563 | An attribute is overwritten in place or appended |
| XmlDom.Node.SpliceLinked | trunk/3rdparty/tinyxml/tinyxml.cpp:144-276 | One splice of the sibling list, with the neighbours' pointers mended, keeps both walks and all parent pointers |
| XmlDom.EditKeepsOthers | trunk/3rdparty/tinyxml/tinyxml.cpp:144-276 | An edit of one node's children leaves the lists of all other nodes well formed |
| XmlDom.SubtreeDetached | trunk/3rdparty/tinyxml/tinyxml.cpp:258-276 | No link from what remains leads into a deleted subtree, except from its parent |
| XmlDom.ShowsOne | trunk/3rdparty/tinyxml/tinyxml.cpp:624-660 | A node shows at most one tree |
| XmlDom.AllStillTrees | trunk/3rdparty/tinyxml/tinyxml.cpp:168-178 | When children of one node give way to others, and whatever was below those that went is deleted, every node that remains and was a finite tree is one, however what came in relates to its place |
| XmlDom.ParentNotBelow | trunk/3rdparty/tinyxml/tinyxml.cpp:258-276 | A node is never among the nodes below its own child |
| XmlDom.TreesAfterReplace | trunk/3rdparty/tinyxml/tinyxml.cpp:232-256 | After a replacement the parent is a tree if and only if no document was put in; without one all remaining trees stay trees |
| XmlEdits.Run | trunk/3rdparty/tinyxml/tinyxml.cpp:144-276 | After any sequence of constructions, links, insertions, replacements and removals, the links are well formed and the roots show exactly the trees that the same edits, done on values, give |
| XmlEdits.Do | trunk/3rdparty/tinyxml/tinyxml.cpp:144-276 | One edit, refused or done: links well formed, and the roots show the edited trees |
| XmlEdits.DoLinkEnd | trunk/3rdparty/tinyxml/tinyxml.cpp:144-166 | A root becomes the last child of a node under another root, or is dropped when it is a document |
| XmlEdits.DoInsertEnd | trunk/3rdparty/tinyxml/tinyxml.cpp:168-178 | The edited tree has a copy at the end of the children, also when the node is copied under itself |
| XmlEdits.DoInsertBefore | trunk/3rdparty/tinyxml/tinyxml.cpp:180-204 | The edited tree has a copy before the child that the place names, or is unchanged when that is no child or a document is inserted |
| XmlEdits.DoInsertAfter | trunk/3rdparty/tinyxml/tinyxml.cpp:206-230 | The same after the child |
| XmlEdits.DoReplace | trunk/3rdparty/tinyxml/tinyxml.cpp:232-256 | The edited tree has the copy in place of the child, and the set of nodes loses the subtree |
| XmlEdits.DoRemove | trunk/3rdparty/tinyxml/tinyxml.cpp:258-276 | The edited tree lacks the child, and the set of nodes loses the subtree |
| XmlEdits.OnePlace | trunk/3rdparty/tinyxml/tinyxml.cpp:144-276 | In a well-linked set no node has two places, so an edit of a node is an edit of one place |
| XmlEdits.PutShows | trunk/3rdparty/tinyxml/tinyxml.cpp:144-276 | On the way from a root to the edited node the trees change only in the child on that way; at its end the children are spliced |
| XmlEdits.Untouched | trunk/3rdparty/tinyxml/tinyxml.cpp:144-276 | A node with the edited node not below it shows the same tree as before |
| XmlEdits.GetElsewhere | trunk/3rdparty/tinyxml/tinyxml.cpp:144-276 | An edit at one place leaves alone every subtree that is neither on the way to it nor below it |
| XmlEdits.SpliceBack | trunk/3rdparty/tinyxml/tinyxml.cpp:144-276 | After splicing, the node has the spliced children, and splicing the old ones back restores all trees |
| XmlEdits.RootTaken | trunk/3rdparty/tinyxml/tinyxml.cpp:144-166 | Linking a root takes it from the client; it becomes the last child, or is gone when it is a document, and the other children are as before |
| XmlEdits.RemoveUndoesInsert | trunk/3rdparty/tinyxml/tinyxml.cpp:180-276 | Inserting before or after a child and removing the new node again leaves all trees as they were |
| XmlEdits.ReplaceIsInsertAndRemove | trunk/3rdparty/tinyxml/tinyxml.cpp:206-276 | Replacing a child is the same as inserting the copy behind it and removing the child |
| XmlPrinter.Accept | trunk/3rdparty/tinyxml/tinyxml.cpp:643-651 | Walking any node on the heap appends exactly its printed text and restores the depth and the text mode |
| XmlPrinter.AcceptChildren | trunk/3rdparty/tinyxml/tinyxml.cpp:643-651 | The child loop appends the printed children in order |
| XmlPrinter.Printer.VisitEnter | trunk/3rdparty/tinyxml/tinyxml.cpp:1406-1432 | Writes the indentation and the start tag of the element, and enters text mode exactly for a single plain text child |
| XmlPrinter.Printer.VisitExit | trunk/3rdparty/tinyxml/tinyxml.cpp:1434-1450 | Writes what closes the element and leaves text mode |
| XmlPrinter.Printer.VisitText | trunk/3rdparty/tinyxml/tinyxml.cpp:1452-1471 | Writes a text, a CDATA section, or in text mode the bare escaped text |
| XmlPrinter.Printer.VisitComment | trunk/3rdparty/tinyxml/tinyxml.cpp:1480-1487 | Appends the comment between its marks, with indentation in front and a line break behind |
| XmlPrinter.Printer.VisitUnknown | trunk/3rdparty/tinyxml/tinyxml.cpp:1489-1496 | Appends the unknown tag, with indentation in front and a line break behind |
| XmlPrinter.Printer.PrintAttribute | trunk/3rdparty/tinyxml/tinyxml.cpp:958-985 | Writes name and value escaped, in double quotes unless the value has one |
| XmlPrinter.Printer.PrintAttributes | trunk/3rdparty/tinyxml/tinyxml.cpp:1410-1413 | Writes the attributes that iteration shows, in order |
| XmlPrinter.Printer.DoIndent | trunk/3rdparty/tinyxml/tinyxml.h:2120-2123 | Writes one indent for each level |
| XmlPrinter.Parts | trunk/3rdparty/tinyxml/tinyxml.cpp:1406-1450 | Enter, children and exit of an element make up its printed text |
| XmlLayout.PrintIsLines | trunk/3rdparty/tinyxml/tinyxml.cpp:1406-1496 | The printed text is the lines of the tree, each behind as many indents as its node is deep and with a line break: one line for each node, an element with one plain text on one line, one for each tag of an element with other children |
| XmlLayout.AttrPrinted | trunk/3rdparty/tinyxml/tinyxml.cpp:958-985 | An attribute stands in double quotes, or in single quotes when its value has a double one |
| XmlParser.ParseElementNode | trunk/3rdparty/tinyxml/tinyxmlparser.cpp:913-1017 | On the heap: agrees with the specification of element parsing; whatever the outcome the node shows a finite tree, on success the parsed element |
| XmlParser.ReadTag | trunk/3rdparty/tinyxml/tinyxmlparser.cpp:935-1017 | The loop over a start tag: attributes unique and in order, then the children or the end; whatever the outcome the node shows what was read |
| XmlParser.AddAttribute | trunk/3rdparty/tinyxml/tinyxmlparser.cpp:984-1012 | One attribute is appended; a second one of the same name gives its value to the first and is an error |
| XmlParser.ReadValue | trunk/3rdparty/tinyxml/tinyxmlparser.cpp:1019-1072 | The children, linked in the order in which they are read, show the parsed trees; every null and out-of-string outcome agrees, and then too the children show trees |
| XmlParser.ReadPlain | trunk/3rdparty/tinyxml/tinyxmlparser.cpp:1028-1048 | One turn on text: a blank text is dropped, any other becomes the last child, even one that could be read in part only |
| XmlParser.ReadNode | trunk/3rdparty/tinyxml/tinyxmlparser.cpp:1049-1064 | One turn on a tag: the node is identified, parsed and linked as the last child, even if its parse failed |
| XmlParser.ReadContent | trunk/3rdparty/tinyxml/tinyxmlparser.cpp:960-983 | The end tag must be that of the element |
| XmlParser.ParseInto | trunk/3rdparty/tinyxml/tinyxmlparser.cpp:1019-1072 | The parse method of each kind of node fills the node so that it shows the specified tree, or after an error some tree |
| XmlParser.IdentifyNode | trunk/3rdparty/tinyxml/tinyxmlparser.cpp:718-788 | Makes a fresh node of the kind that the first characters call for |
| XmlParser.ParseAttribute | trunk/3rdparty/tinyxml/tinyxmlparser.cpp:1190-1254 | Name, equals sign and quoted or bare value, with white space skipped between them and each error outcome, as specified; `XmlLoose.AttrRead` says which texts are read |
| XmlParser.ParseCommentNode | trunk/3rdparty/tinyxml/tinyxmlparser.cpp:1141-1188 | Reads up to `-->`, and runs out of the string when there is none |
| XmlParser.ParseTextNode | trunk/3rdparty/tinyxml/tinyxmlparser.cpp:1283-1323 | Reads a CDATA section or escaped text, as specified |
| XmlParser.ParseUnknownNode | trunk/3rdparty/tinyxml/tinyxmlparser.cpp:1092-1118 | Reads up to `>`, with the error outcome |
| XmlParser.ReadRaw | trunk/3rdparty/tinyxml/tinyxmlparser.cpp:1171-1186 | The copying loop reads up to the first end tag or the end of the text |
| XmlParser.LinkParsed | trunk/3rdparty/tinyxml/tinyxml.cpp:144-166 | Linking a parsed child keeps the parent showing its earlier children, followed by the new one |
| XmlAttributes.SetRefinesMap | trunk/3rdparty/tinyxml/tinyxml.cpp:545-563 | Setting behaves as an insertion-ordered map: one key changes, no other; an old name keeps its place and a new one goes last |
| XmlAttributes.RemoveRefinesMap | trunk/3rdparty/tinyxml/tinyxml.cpp:332-341 | Removing drops one key and nothing else; the other names keep their order |
| XmlAttributes.VisitsAll | trunk/3rdparty/tinyxml/tinyxml.cpp:920-937 | Iteration shows every attribute exactly when none but the first has an empty name and value; so always when names are non-empty |
| XmlAttributes.AttributeSet.Add | trunk/3rdparty/tinyxml/tinyxml.cpp:1206-1215 | The ring gains an entry before the sentinel and stays well formed |
| XmlAttributes.AttributeSet.Remove | trunk/3rdparty/tinyxml/tinyxml.cpp:1217-1230 | The ring loses just that entry and stays well formed; the entries left are old ones |
| XmlAttributes.AttributeSet.TakeOut | trunk/3rdparty/tinyxml/tinyxml.cpp:1219-1225 | The four pointer assignments close the ring around the entry |
| XmlAttributes.AttributeSet.Find | trunk/3rdparty/tinyxml/tinyxml.cpp:1232-1239 | The walk finds the entry of the name, or there is none |
| XmlAttributes.AttributeSet.Next | trunk/3rdparty/tinyxml/tinyxml.cpp:920-927 | Null at the sentinel or at an entry that looks like it |
| XmlAttributes.AttributeSet.First | trunk/3rdparty/tinyxml/tinyxml.h:1088-1094 | The first entry, or null for an empty ring |
| XmlAttributes.AttributeSet.SetAttribute | trunk/3rdparty/tinyxml/tinyxml.cpp:545-563 | The ring's contents become those of the map with the key set |
| XmlAttributes.AttributeSet.RemoveAttribute | trunk/3rdparty/tinyxml/tinyxml.cpp:332-341 | The ring's contents become those of the map without the key; the entries left are old ones |
| XmlAttributes.AttributeSet.Visit | trunk/3rdparty/tinyxml/tinyxml.cpp:920-927 | First and Next meet exactly the visible entries, in order |
| XmlPosition.ParsingData.Stamp | trunk/3rdparty/tinyxml/tinyxmlparser.cpp:185-292 | The cursor and the stamp become those of a scan from the last stamp to the place asked for; what row and column that scan computes is in `XmlPosition.RowCounts`, `XmlPosition.LastLine` and `XmlPosition.TabColumn` |
| XmlPosition.RowCounts | trunk/3rdparty/tinyxml/tinyxmlparser.cpp:205-232 | Between any two places the row goes up by the number of line ends, counted byte by byte, two different line-end bytes in a row as one; in every encoding |
| XmlPosition.LastLine | trunk/3rdparty/tinyxml/tinyxmlparser.cpp:205-285 | At the end of a text the row is the number of its line ends, and the column the number of characters behind the last one, without byte order marks |
| XmlPosition.TabColumn | trunk/3rdparty/tinyxml/tinyxmlparser.cpp:233-240 | A tab takes the column to the next multiple of the tab size |
| XmlPosition.FlatMoves | trunk/3rdparty/tinyxml/tinyxmlparser.cpp:241-285 | Along a stretch without line ends and tabs the column goes up by one for each character that is no mark |
| XmlPosition.ScanIsMoves | trunk/3rdparty/tinyxml/tinyxmlparser.cpp:200-288 | A scan moves the cursor once for each character of the text |
| XmlPosition.BytesAreCharacters | trunk/3rdparty/tinyxml/tinyxmlparser.cpp:264-285 | In a line of ASCII, or without UTF-8, every byte is a character |
| XmlPosition.IncrementalIsOneScan | trunk/3rdparty/tinyxml/tinyxmlparser.cpp:185-292 | After any calls at any positions in any order the result is that of one scan to the furthest, despite overshoot |
| XmlPosition.ScanTwice | trunk/3rdparty/tinyxml/tinyxmlparser.cpp:185-292 | Scanning on from an overshot position equals scanning once to the further of the two |
| XmlPosition.LessThanOneCharacter | trunk/3rdparty/tinyxml/tinyxmlparser.cpp:200-288 | A scan overshoots by less than one character |
| XmlLineEnds.NormalizeLineEnds | trunk/3rdparty/tinyxml/tinyxml.cpp:801-839 | The lazy block-copying loop equals the per-character rule of section 2.11 of XML 1.0 |
| XmlLineEnds.NoCarriageReturn | trunk/3rdparty/tinyxml/tinyxml.cpp:801-839 | The output has no carriage return |
| XmlLineEnds.UnchangedWithout | trunk/3rdparty/tinyxml/tinyxml.cpp:801-839 | The loop changes a text exactly when it has a carriage return, and a second pass changes nothing |
| XmlLineEnds.NormalizedJoinsLines | trunk/3rdparty/tinyxml/tinyxml.cpp:801-839 | The output is the lines of the text, split at any of the three line ends and joined with newlines |
| Gzip.CheckGzipHeader | trunk/3rdparty/curl/lib/content_encoding.c:199-274 | The header check agrees with its specification on every input, reads no byte past the data, and refuses exactly what no further bytes turn into a stream that starts with a header |
| Gzip.SkipText | trunk/3rdparty/curl/lib/content_encoding.c:238-250 | The loop stops at the first NUL, or at the end |
| Gzip.SkipExtra | trunk/3rdparty/curl/lib/content_encoding.c:223-236 | Skips the extra field by its 16-bit length, if all of it is there |
| Gzip.GoodIsHeader | trunk/3rdparty/curl/lib/content_encoding.c:199-274 | A header is accepted, with its length, exactly when the data starts with a header of section 2.3 of RFC 1952 of that length |
| Gzip.BadIsHopeless | trunk/3rdparty/curl/lib/content_encoding.c:208-220 | Data is refused if and only if it has ten bytes and no continuation of it starts with a header of the RFC; all other incomplete data is waited for |
| Gzip.RefusedByFirstBytes | trunk/3rdparty/curl/lib/content_encoding.c:208-220 | The magic number, the method and the reserved flags alone decide a refusal |
| Gzip.FlagsAre | trunk/3rdparty/curl/lib/content_encoding.c:222-270 | Which flag announces the header checksum and the extra field, by headers spelled out, and that a reserved one is refused |
| Gzip.TextFlagsAre | trunk/3rdparty/curl/lib/content_encoding.c:238-262 | Which flags announce a name and a comment |
| Gzip.HeaderAccepted | trunk/3rdparty/curl/lib/content_encoding.c:199-274 | Any header laid out by the RFC, followed by anything, is accepted with its exact length |
| Gzip.HeaderFound | trunk/3rdparty/curl/lib/content_encoding.c:199-274 | Whatever is accepted starts with a header laid out by the RFC |
| Gzip.MoreBytes | trunk/3rdparty/curl/lib/content_encoding.c:199-274 | More bytes never change an OK or BAD verdict, and a prefix that underflowed is shorter than the final header |
| Gzip.PayloadGrows | trunk/3rdparty/curl/lib/content_encoding.c:370-395 | What one more chunk adds for the inflater, in each state of the header |
| Gzip.Decoder.FirstChunk | trunk/3rdparty/curl/lib/content_encoding.c:332-367 | The initial state: inflate from behind the header, hold the chunk back, or refuse |
| Gzip.Decoder.NextChunk | trunk/3rdparty/curl/lib/content_encoding.c:370-405 | The header-incomplete state: the pointer back into the current chunk lands inside it, just behind the header |
| Gzip.Decoder.Write | trunk/3rdparty/curl/lib/content_encoding.c:277-423 | After each call the inflater has been given exactly the payload of the stream so far; an error exactly when the stream cannot start with a header any more |
| Gzip.Decoder.WriteAll | trunk/3rdparty/curl/lib/content_encoding.c:330-423 | For every way to cut a stream into non-empty chunks the inflater gets the bytes behind the header, once and in order, and nothing when there is no header; the stream is refused if and only if no continuation of it starts with a header |
| Gzip.StreamTaken | trunk/3rdparty/curl/lib/content_encoding.c:330-423 | What the check makes of a stream, said by the headers of the RFC alone: refused, skipped up to its end, or waited for |
| Glob.Loop | trunk/3rdparty/curl/lib/curl_fnmatch.c:312-414 | The matcher's loop, with its escape state, its recursion and its reused set, computes the specified outcome and always ends |
| Glob.SetCharset | trunk/3rdparty/curl/lib/curl_fnmatch.c:128-310 | The bracket state machine computes the specified result on every pattern, including the rounds that would never end or leave the pattern |
| Glob.DefaultRound | trunk/3rdparty/curl/lib/curl_fnmatch.c:138-209 | For every pattern, set and start of range: leaves exactly the pointer, set, state and flags of the specified round, or stops with its result |
| Glob.MayRangeRound | trunk/3rdparty/curl/lib/curl_fnmatch.c:210-238 | The same after a character that may start a range, where only a dash, a bracket, an alphanumeric or an escape may follow |
| Glob.MayRange2Round | trunk/3rdparty/curl/lib/curl_fnmatch.c:239-272 | The same after a dash, with the double escape that reads two ends, the end that leaves the pattern, and the round without progress told apart |
| Glob.FillRange | trunk/3rdparty/curl/lib/curl_fnmatch.c:258-268 | The loop sets the characters after the start of a range up to its end, and takes the dash out |
| Glob.ScanKeyword | trunk/3rdparty/curl/lib/curl_fnmatch.c:71-99 | Accepts letters followed by `:]` within the keyword's ten places, and nothing else |
| Glob.ParseKeyword | trunk/3rdparty/curl/lib/curl_fnmatch.c:71-125 | Flags the class that is named and moves just past it; fails, changing nothing, when no class is named |
| Glob.KeywordIsName | trunk/3rdparty/curl/lib/curl_fnmatch.c:101-122 | A keyword is found exactly when its name and `:]` start the text |
| Glob.ClassNames | trunk/3rdparty/curl/lib/curl_fnmatch.c:101-122 | The ten class names as they are written |
| Glob.ClassCodes | trunk/3rdparty/curl/lib/curl_fnmatch.c:360-383 | The ten classes by the codes of their characters |
| GlobSet.SetScanned | trunk/3rdparty/curl/lib/curl_fnmatch.c:128-310 | Any set of single characters, escapes, named classes, runs and ranges, negated or not, also one that starts with `]` or `][`, is read up to its closing bracket, or its first faulty range stops the reading or repeats for ever |
| GlobSet.LeadScanned | trunk/3rdparty/curl/lib/curl_fnmatch.c:273-306 | The two states after a leading `]` and `][`: these characters and the one after them are put into the set, and reading goes on from the default state or waits for the closing bracket |
| GlobSet.SetHangs | trunk/3rdparty/curl/lib/curl_fnmatch.c:239-272 | Reading a set never ends if and only if some range descends and every earlier one ascends inside one class; it succeeds if and only if all ranges ascend inside one class |
| GlobSet.RangeStops | trunk/3rdparty/curl/lib/curl_fnmatch.c:239-272 | A range that stops the reading, or keeps it from ending, does so whatever text follows, a closing bracket or none |
| GlobSet.CutOffRangeHangs | trunk/3rdparty/curl/lib/curl_fnmatch.c:239-272 | A pattern that ends behind the dash of a range is read for ever if and only if no earlier range makes the reading fail |
| GlobHang.SetNeverRead | trunk/3rdparty/curl/lib/curl_fnmatch.c:128-310 | For every text behind an opening bracket: reading never ends if and only if the text consists of a negation and leading brackets, any pieces that are got over (items, a `[` that starts no class, ranges with two backslashes for an end), and a range with no end or one below its start |
| GlobHang.HangsEndless | trunk/3rdparty/curl/lib/curl_fnmatch.c:128-310 | Whatever is read for ever can be split in this way |
| GlobHang.EndlessHangs | trunk/3rdparty/curl/lib/curl_fnmatch.c:128-310 | Whatever can be split in this way is read for ever |
| GlobHang.MatcherHangs | trunk/3rdparty/curl/lib/curl_fnmatch.c:356-400 | A pattern with such a set never gets an answer, whatever the subject |
| GlobHang.SetEndsEarly | trunk/3rdparty/curl/lib/curl_fnmatch.c:138-310 | A set that is cut off, has a backslash before nothing printable, an unknown class, a stray character behind a run or a range into another class is refused; a doubled backslash just before the end of the pattern takes the pointer past it |
| GlobHang.LeadCutOff | trunk/3rdparty/curl/lib/curl_fnmatch.c:273-306 | A leading `]` needs a printable character behind it; behind `][` the end of the pattern is stepped over |
| GlobHang.TwiceScanned | trunk/3rdparty/curl/lib/curl_fnmatch.c:239-272 | A range end of two backslashes reads the next character as the end, too, and passes over one more unless that is below the start |
| GlobSet.FateIsFirst | trunk/3rdparty/curl/lib/curl_fnmatch.c:239-272 | The first faulty range decides what becomes of the set |
| GlobSet.SetIsUnion | trunk/3rdparty/curl/lib/curl_fnmatch.c:128-310 | The characters flagged are exactly those that the set lists, without a dash that a later range takes out; each class and the negation have their own flag |
| GlobSet.SetMeans | trunk/3rdparty/curl/lib/curl_fnmatch.c:356-391 | The set accepts just what it says (all characters listed and all of every class named) if and only if every stretch of a named class is in the class tested or listed in the set, and no dash is lost |
| GlobSet.ClassesMean | trunk/3rdparty/curl/lib/curl_fnmatch.c:356-391 | A set of named classes means their union if and only if each is within the class tested, by the table of inclusions |
| GlobSet.WithinIsInclusion | trunk/3rdparty/curl/lib/curl_fnmatch.c:356-391 | The table says exactly which of the ten classes is included in which |
| GlobSet.OneClassMeans | trunk/3rdparty/curl/lib/curl_fnmatch.c:356-391 | With at most one named class the set means what it says, a lost dash apart |
| GlobSet.SecondClassIsShadowed | trunk/3rdparty/curl/lib/curl_fnmatch.c:356-391 | A set of digits and upper-case letters refuses `A` |
| GlobSet.DashIsLost | trunk/3rdparty/curl/lib/curl_fnmatch.c:258-268 | A set of a dash and then a range refuses the dash |
| GlobMatch.FnmatchDecides | trunk/3rdparty/curl/lib/curl_fnmatch.c:312-414 | For every pattern of literals, escapes, `?`, `*` and sets of the grammar, negated or not, and every subject, the answer is exactly the verdict of the declarative relations, by what the matcher tests of a set, and for sets that mean what they say by what they say: MATCH if the pattern matches, else run-off if it exhausts the subject, else FAIL if it meets an unprintable character, else NOMATCH; never an endless round |
| GlobMatch.ChainMeans | trunk/3rdparty/curl/lib/curl_fnmatch.c:356-391 | The chain of tests accepts a character exactly when the set, taken in either way, says so |
| GlobMatch.FnmatchRunsOff | trunk/3rdparty/curl/lib/curl_fnmatch.c:356-400 | With printable subjects, negated sets included: the matcher leaves the subject if and only if it does not match and some beginning of the pattern, just in front of a negated set, matches all of it |
| GlobMatch.ExhaustsByPrefix | trunk/3rdparty/curl/lib/curl_fnmatch.c:384-394 | A pattern exhausts a subject exactly when a beginning of it matches the whole subject and a negated set comes next |
| GlobMatch.NoMatchLost | trunk/3rdparty/curl/lib/curl_fnmatch.c:323-335 | If the pattern exhausts a subject and matches an end of it, it matches the whole: no match is lost to the run-off |
| GlobMatch.FnmatchIsMatch | trunk/3rdparty/curl/lib/curl_fnmatch.c:312-414 | With printable subjects and no negated set: MATCH exactly when the declarative relation holds, NOMATCH otherwise, never FAIL |
| GlobMatch.StrayBackslash | trunk/3rdparty/curl/lib/curl_fnmatch.c:401-413 | A backslash before nothing printable is refused, unless the match has failed in front of it |
| GlobMatch.StarUnfolds | trunk/3rdparty/curl/lib/curl_fnmatch.c:323-335 | A star matches nothing, or one character and then a star again |
| GlobMatch.StarsCollapse | trunk/3rdparty/curl/lib/curl_fnmatch.c:324-325 | Several stars mean what one does |
| GlobMatch.SetDecides | trunk/3rdparty/curl/lib/curl_fnmatch.c:356-400 | One bracket step of the matcher, in terms of what the set means |
| Resolver.NeverFreedInUse | trunk/3rdparty/curl/lib/asyn-thread.c:317-334 | In every state of every interleaving a thread that may touch the shared data finds it live, the owner finds it not freed, and `done` is never read while it is written |
| Resolver.ResultIsFinal | trunk/3rdparty/curl/lib/asyn-thread.c:242-286 | The owner reads the result only after the thread's last write to it; it is a list exactly when there is no error, and no thread step changes it any more |
| Resolver.ExactlyOnce | trunk/3rdparty/curl/lib/asyn-thread.c:186-201 | No result list is disposed of twice, and once nothing is under way each has been handed to the connection or freed exactly once, and all blocks are freed |
| Resolver.AllHandedOver | trunk/3rdparty/curl/lib/hostasyn.c:82-100 | In every run without a cancel in which each list can be stored, no list is freed, and when no resolve is under way the connection has been given every list that was found, exactly once |
| Resolver.GoesTo | trunk/3rdparty/curl/lib/hostasyn.c:73-116 | A list reaches the connection only by a completion that can store it, and is freed only by one that cannot, or with the block that still holds it |
| Resolver.MadeCounts | trunk/3rdparty/curl/lib/asyn-thread.c:242-286 | There is one list for each look-up that found something |
| Resolver.CancelGivesNothing | trunk/3rdparty/curl/lib/asyn-thread.c:144-147 | After a cancel the connection is given nothing, even if the thread finds something |
| Resolver.PollSees | trunk/3rdparty/curl/lib/asyn-thread.c:452-509 | A poll that starts when the thread is done ends with the resolve completed; a poll ends a resolve only when the thread is done |
| Resolver.StepKeeps | trunk/3rdparty/curl/lib/asyn-thread.c:242-334 | Every step of the thread or the owner keeps the invariant |
| Resolver.RunKeeps | trunk/3rdparty/curl/lib/asyn-thread.c:242-509 | Every run keeps the invariant |
| Resolver.SomeoneMoves | trunk/3rdparty/curl/lib/asyn-thread.c:423-509 | No deadlock: during a call the owner or its thread can move |
| Resolver.WorkFalls | trunk/3rdparty/curl/lib/asyn-thread.c:423-509 | Every step inside a call comes nearer to its end |
| Resolver.CallReturns | trunk/3rdparty/curl/lib/asyn-thread.c:423-509 | However the two are scheduled, a call ends within fifteen steps; a wait or a cancel ends with nothing under way |
| Resolver.OwnerStepBalances | trunk/3rdparty/curl/lib/hostasyn.c:73-116 | Every owner step, the hand-over included, keeps each list accounted for once |
| Resolver.PollTimer.NextPoll | trunk/3rdparty/curl/lib/asyn-thread.c:488-506 | The interval doubles when the last one has expired and else stays, and is what the caller is told to wait |
| Resolver.IntervalDoubles | trunk/3rdparty/curl/lib/asyn-thread.c:493-503 | After any number of rounds the interval is that power of two, at most 250 and at least 1, and never shrinks |
| Base64.DecodeEncode | trunk/3rdparty/curl/lib/base64.c:82-139 | Decoding the encoding of any non-empty byte string gives it back with its exact length (section 4 of RFC 4648) |
| Base64.EncodeDecode | trunk/3rdparty/curl/lib/base64.c:82-247 | Encoding the decoding of a text gives it back if and only if the text is canonical: full groups, the last one padded with no bits left over |
| Base64.EncodedIsCanonical | trunk/3rdparty/curl/lib/base64.c:158-247 | Every encoding is canonical |
| Base64.EncoderFits | trunk/3rdparty/curl/lib/base64.c:179-181 | The space computed for the encoding is enough with its NUL, and just enough when one byte is left over |
| Base64.Base64Encode | trunk/3rdparty/curl/lib/base64.c:158-247 | Fills the buffer with the encoding and its NUL inside the space computed, up to the last cell exactly when the length leaves one over |
| Base64.EncodeAll | trunk/3rdparty/curl/lib/base64.c:196-240 | The loop writes the encoding group by group, every write inside the buffer |
| Base64.EncodePart | trunk/3rdparty/curl/lib/base64.c:205-238 | The four characters of a group of one, two or three bytes, with its NUL, go behind what is already in the buffer, which stays |
| Base64.ReadPart | trunk/3rdparty/curl/lib/base64.c:197-206 | Takes the next three bytes, or what is left followed by zeros, and says how many were there |
| Base64.EncodedLength | trunk/3rdparty/curl/lib/base64.c:196-240 | The encoding has four characters for every three bytes begun |
| Base64.TableIsLetters | trunk/3rdparty/curl/lib/base64.c:40-41 | The table is the alphabet of the RFC |
| Base64.AlphabetCodes | trunk/3rdparty/curl/lib/base64.c:40-41 | The alphabet by the codes of its characters |
| Base64.TestVectors | trunk/3rdparty/curl/lib/base64.c:158-247 | The test vectors of section 10 of RFC 4648 |
| Base64.StrangersSkipped | trunk/3rdparty/curl/lib/base64.c:43-66 | A character outside the alphabet changes nothing, wherever it stands |
| Base64.DecodeQuantum | trunk/3rdparty/curl/lib/base64.c:43-66 | Four characters give three bytes; pads count as zero and foreign characters are skipped |
| Base64.Search | trunk/3rdparty/curl/lib/base64.c:50-56 | The table search finds a character's value, or that it is not in the table |
| Base64.Measure | trunk/3rdparty/curl/lib/base64.c:93-101 | The length up to the first pad, and at most two pads |
| Base64.Base64Decode | trunk/3rdparty/curl/lib/base64.c:82-139 | The buffer holds the decoding and a NUL four cells before its end; all reads stay inside the string and all writes inside the buffer; null exactly when nothing decodes |
| Base64.DecodeFront | trunk/3rdparty/curl/lib/base64.c:117-122 | The loop decodes all quantums but the last |
| Base64.DecodeLast | trunk/3rdparty/curl/lib/base64.c:124-134 | The last quantum gives fewer bytes when it is padded |
| Ntlm.SelfDescribing | trunk/3rdparty/curl/lib/curl_ntlm_msgs.c:748-906 | Each security buffer, read from the message alone, selects exactly the bytes of its part; the parts follow each other without gap or overlap to the end of the message, below 1024 bytes |
| Ntlm.ReceivedIsSent | trunk/3rdparty/curl/lib/curl_ntlm_msgs.c:759-917 | A receiver that follows the buffers out of the base64 text gets both responses, domain, user, host and flags back |
| Ntlm.HeaderSays | trunk/3rdparty/curl/lib/curl_ntlm_msgs.c:748-836 | Where the security buffers of a message that fits point, and its flags |
| Ntlm.HeaderIsType3 | trunk/3rdparty/curl/lib/curl_ntlm_msgs.c:757-836 | Every message that fits starts with the signature and message type 3, has an empty session key, and its first response at 64 |
| Ntlm.SpelledInMessage | trunk/3rdparty/curl/lib/curl_ntlm_msgs.c:295-303 | With bit 0 of the flags every byte of a name is followed by a zero; without it names are as they are |
| Ntlm.CreateType3Message | trunk/3rdparty/curl/lib/curl_ntlm_msgs.c:662-917 | Fails exactly when the names do not fit; else returns the base64 text of the message for the user, the domain before the user, and the host |
| Ntlm.Build | trunk/3rdparty/curl/lib/curl_ntlm_msgs.c:748-906 | The fixed buffer holds the message, written front to back |
| Ntlm.PutResponses | trunk/3rdparty/curl/lib/curl_ntlm_msgs.c:759-865 | Header and responses, the first response over the header's NUL |
| Ntlm.PutNames | trunk/3rdparty/curl/lib/curl_ntlm_msgs.c:884-906 | Domain, user and host follow each other, widened or as they are |
| Ntlm.UnicodeCpy | trunk/3rdparty/curl/lib/curl_ntlm_msgs.c:295-303 | Every source byte is followed by a zero byte |
| Ntlm.SplitUser | trunk/3rdparty/curl/lib/curl_ntlm_msgs.c:662-677 | The domain ends at the first backslash, else at the first slash; without either there is none |
| Ntlm.DomainAndUser | trunk/3rdparty/curl/lib/curl_ntlm_msgs.c:662-677 | A domain without a backslash and a user name, joined by one, come apart again |
| Ntlm.DomainSplit | trunk/3rdparty/curl/lib/curl_ntlm_msgs.c:662-677 | The byte 0x5c splits domain and user, else 0x2f does, and without either there is no domain |
| Ntlm.LongReads | trunk/3rdparty/curl/lib/curl_ntlm_msgs.c:156-160 | Reading four bytes little-endian inverts writing them |
| Ntlm.NarrowWiden | trunk/3rdparty/curl/lib/curl_ntlm_msgs.c:295-303 | Dropping the zero bytes inverts widening |
| ConnCache.ConnCache.AddConn | trunk/3rdparty/curl/lib/conncache.c:122-155 | Keeps the invariant (count = sum of bundle sizes, no empty bundle, back pointers name exactly the bundle that lists them); adds the connection to its host's bundle, or changes nothing when an allocation fails |
| ConnCache.ConnCache.RemoveConn | trunk/3rdparty/curl/lib/conncache.c:157-174 | Keeps the invariant; takes the connection out, its bundle too when it was the last, and leaves a connection in no bundle alone |
| ConnCache.ConnCache.FindFirstConnection | trunk/3rdparty/curl/lib/conncache.c:219-242 | Finds a connection exactly when the count is positive |
| ConnCache.ConnCache.FirstListed | trunk/3rdparty/curl/lib/conncache.c:219-242 | The iteration returns a listed connection, or every bundle is empty |
| ConnCache.ConnCache.RemoveBundle | trunk/3rdparty/curl/lib/conncache.c:98-120 | The search by value deletes exactly the element of that bundle |
| ConnCache.ConnCache.FindOrCreate | trunk/3rdparty/curl/lib/conncache.c:129-144 | The bundle of the host, or a new one in the index, or nothing changed |
| ConnCache.Bundle.AddConn | trunk/3rdparty/curl/lib/bundles.c:81-92 | The connection goes last, the count and the back pointer follow; on failure nothing changes |
| ConnCache.Bundle.RemoveConn | trunk/3rdparty/curl/lib/bundles.c:94-110 | The connection leaves the list, the count and the back pointer follow; a connection not listed changes nothing |
| ConnCache.RemoveUndoesAdd | trunk/3rdparty/curl/lib/conncache.c:122-174 | Adding a connection and removing it again leaves the cache as it was |
| ConnCache.TotalWithout | trunk/3rdparty/curl/lib/conncache.c:122-174 | The sum of bundle sizes does not depend on the order of the table |
| ConnCache.WithoutKeeps | trunk/3rdparty/curl/lib/bundles.c:94-110 | Removing one connection from a list without repetitions removes that one only |

## Left out

TinyXML

- XML declarations and DTDs; the parser stops at a declaration with an outcome of its own.
- XmlDocument.ParseDocumentNode: a declaration, and with it the switch of encoding after it, ends the parse with an outcome of its own; a byte order mark is looked for, but not kept as a property of the document.
- Files and C++ streams: `SaveFile`, the `fread` part of `LoadFile`, `StreamIn`, `operator<<`, and the `Print` methods that write to a `FILE`.
- Error codes and descriptions, `GetDocument`, numeric attribute queries, `TiXmlHandle`, user data.
- After a syntax error the nodes are proved to show some finite tree, linked as the source links them; which tree is not stated, and after a pointer has left the string the model stops there.
- XmlParser.IdentifyNode: does not set the parent pointer that serves error reports before the node is linked, and makes no declaration node.
- A node on the heap holds its attributes as a sequence; the circular list is modelled separately in `XmlAttributes`, whose methods refine the functions that the nodes use.
- `unsigned long` has 64 bits and `unsigned` 32, as on LP64 platforms.
- XmlRoundTrip.RoundTrip: names must be accepted by `ReadName` and attribute names differ; plain texts are not blank, not neighbours, and hold nothing that looks like `&#x`; in UTF-8 no text or name starts with a byte that `SkipWhiteSpace` takes for a mark, and multi-byte characters are complete.
- XmlReparse.ParsePrintParse: states one direction for trees with several texts, and both for one text (`XmlReparse.OneTextReread`): a reference that is read on into later markup can make the rest of the text mean something else.
- XmlEdits.Run: a document is not put in the place of a child (the source does not check; `XmlDom.TreesAfterReplace` says what becomes of the tree), and only elements and documents are given a first child; attributes and values are not edited. A client that names nodes by their places finds them by walking.
- Freeing memory: a removed node leaves the set of nodes, its memory is not modelled.

libcurl

- Gzip.Decoder.Write: `inflate` takes all it is given; that it may end or fail, the raw-deflate restart and the client's write callback are not modelled. Allocation failure while a header is held back is not modelled, and buffers stay below 4 GB, the range of zlib's counts.
- Character classes are those of the C locale.
- GlobSet.SetScanned: the sets whose meaning is stated have no `[` without a backslash that starts no class (so none behind a run of characters either), no dash just before the closing bracket behind a character that could start a range, no two backslashes for the end of a range, nothing behind a run but a dash, a named class or the closing bracket, and no backslash before an unprintable character; what other sets accept is what `Glob.SetOf` computes, which `Glob.SetCharset` is proved against, and when they are read for ever `GlobHang.SetNeverRead` says.
- Resolver.ExactlyOnce: joins succeed and the mutex works as specified; one resolve at a time is started, as the callers do. `getaddrinfo` is a step with either outcome. The two threads are steps of a state machine, not Dafny code that runs.
- Host names and ports in the resolver's shared data; the time-out message; c-ares.
- Base64.Base64Encode: allocation succeeds and four times the size fits `size_t`; no character set conversion.
- Ntlm.CreateType3Message: the hash functions and the host name lookup are parameters; lengths fit `size_t`; SSPI and the type-1 and type-2 messages are left out.
- ConnCache.ConnCache.AddConn: the cache passed is that of the session, and the connection is in no bundle, as at the call sites. The hash table is a map met in any order; destroying a whole cache and `Curl_conncache_foreach` are left out.
- Everything else in libcurl, and the streaming server around both libraries.
