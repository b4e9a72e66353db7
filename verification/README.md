# The XML engine and the one-time passwords, as a Dafny model

This project models two parts of the repository and proves properties of the model.

**The XML engine** in `impl_saori/XPath/tinyxpath`: TinyXML with the node-set and token layers of
TinyXPath.

- `Characters`, `Entities`, `CharacterData`, `Condensing`: character classes, character references,
  and reading text with and without its white space.
- `References`, `RawText`: what the numbers and names in references stand for, and text as it stands in a file.
- `XmlTree`, `Grammar`, `Printing`, `NormalForm`: the values of documents, the parser and the printer
  as functions on values, and the form every parsed document has. `Malformed` and `Layout` say what the parser
  makes of text that is not well formed, and how the printer sets lines.
- `RoundTrip`, `RoundTripNodes`, `RoundTripTree`, `ParserRange`, `Documents`: parsing what was printed,
  and the range of the parser. `Documents` holds the main theorems.
- `AttributeMap`, `AttributeRing`, `Dom`, `Copying`, `Shapes`, `DomRuns`: the circular attribute list and the doubly linked
  child lists, as classes that are changed in place. The abstract state of a set of nodes is a ghost
  `Forest` that the methods take and hand on; `Intact` says that it describes the heap. `DomRuns` has the runs
  of edits, which `Shapes` describes on values.
- `Scanner`, `Parser`: the parser as it is written, with positions in a text and nodes that it links. Each
  method is proved to do what the function of `Grammar` with its name computes.
- `Printer`, `HeapRoundTrip`: the printing visitor over nodes, proved against `Printing`, and printing and
  parsing put together.
- `TokenMerging`, `TokenRing`: the token ring and the tokenizer's in-place pass.
- `DocumentOrder`, `Axes`, `AxisMembers`, `AxisOrder`, `NodeSet`: the document-order comparison, the axes, what
  they hold and miss and in which order, and the growable set.
- `Cursor`, `Utf8`, `Utf8Text`, `Utf8Survival`, `LineEnds`: rows and columns, UTF-8, and line-end normalisation.
- `Rings`, `Arithmetic` and `Errors` are shared: lists without repetition, division, and the error state of a
  document.

**The one-time passwords** in `impl_saori/totp_saori`: `Base32` (the decoder) and `Totp` (32-bit powers and
the truncation of a hash).

Conventions. A C string is the sequence of its characters before the terminating NUL, a `char` stands for an
unsigned byte, and the character classes are those of the C locale. A pointer into a text is an optional
position; null is the missing position. A pointer that the original moves past the terminating NUL (behind an
end tag that never came) may not be used, and counts as null. Text is read in the byte-per-character encoding
unless a module says otherwise. `unsigned` and `unsigned long` are taken to be 32 bits wide. Where the code and
its comments differ, the model follows the code: the sort of the node set compares a node with itself, and
`ReplaceChild` does not refuse a document although its siblings do. Where a method reports to the document that
a node belongs to, the error state of that document is a parameter, and null when there is none.

## Model

| member | source | states |
|---|---|---|
| Documents.DocumentSurvives | impl_saori/XPath/tinyxpath/tinyxml.cpp:1758-1876 | main result: whatever white space the printer uses for indentation and line breaks (none in stream mode), a document of values that come back on their own (without "&#x", NUL, or a quote or ampersand in a declaration) comes back equal and without an error if and only if it is well formed and its texts are condensed |
| Documents.DocumentRoundTrip | impl_saori/XPath/tinyxpath/tinyxmlparser.cpp:704-796 | parsing what was printed gives every well-formed document back with its texts condensed and reports no error, for all layouts |
| Documents.LayoutDoesNotMatter | impl_saori/XPath/tinyxpath/tinyxml.cpp:1758-1876 | two layouts lead to the same document, and printing and parsing a second time, in either layout, changes nothing |
| Documents.ParsedDocument | impl_saori/XPath/tinyxpath/tinyxmlparser.cpp:704-796 | whatever the text, every node the parser builds is well formed, and a parse without error builds at least one |
| HeapRoundTrip.PrintAndParse | impl_saori/XPath/tinyxpath/tinyxml.cpp:1160-1171 | printing the nodes of one document and parsing the text into another leaves the first untouched and makes the second hold the same trees, texts condensed, without an error and as one tree that hangs nowhere |
| HeapRoundTrip.PrintedIsCString | impl_saori/XPath/tinyxpath/tinyxml.cpp:1758-1888 | the printed text of a document that can survive holds no NUL, so that the parser sees all of it |
| RoundTripTree.NodeRoundTrip | impl_saori/XPath/tinyxpath/tinyxmlparser.cpp:1049-1246 | a printed node other than plain text is identified and parsed back, and the parser stops right behind it |
| RoundTripTree.ContentRoundTrip | impl_saori/XPath/tinyxpath/tinyxmlparser.cpp:1177-1246 | printed children before an end tag are read back in order, each text condensed, up to that end tag |
| ParserRange.ParsedNode | impl_saori/XPath/tinyxpath/tinyxmlparser.cpp:818-912 | any node the parser builds from any text is well formed: names that can be read, unique attributes, no end tag inside a value |
| ParserRange.ParsedContent | impl_saori/XPath/tinyxpath/tinyxmlparser.cpp:1177-1246 | content never holds two neighbouring plain texts or a blank one |
| NormalForm.CondenseFixes | impl_saori/XPath/tinyxpath/tinyxmlparser.cpp:596-636 | condensing all texts of a tree leaves it alone exactly when they are condensed already |
| Entities.EncodeString | impl_saori/XPath/tinyxpath/tinyxml.cpp:51-132 | the loop writes the encoding of every character, and passes a run that looks like a hexadecimal reference through up to its semicolon or the last character |
| Entities.DecodeEncodedChar | impl_saori/XPath/tinyxpath/tinyxmlparser.cpp:438-531 | reading the encoding of any character gives it back and stops right behind it |
| Entities.SumDigits | impl_saori/XPath/tinyxpath/tinyxmlparser.cpp:438-531 | the right-to-left sum of the digits is their positional value in 32 bits, and fails exactly on a bad digit |
| Entities.GetNumericReference | impl_saori/XPath/tinyxpath/tinyxmlparser.cpp:438-531 | a numeric reference yields the low byte of its value and the pointer past the semicolon, or fails |
| Entities.GetEntity | impl_saori/XPath/tinyxpath/tinyxmlparser.cpp:438-531 | the method decodes numeric and named references as specified; an unknown ampersand is dropped |
| Entities.GetChar | impl_saori/XPath/tinyxpath/tinyxml.h:328-362 | one character or entity is consumed, as specified |
| CharacterData.KeepingReadsEncoded | impl_saori/XPath/tinyxpath/tinyxmlparser.cpp:574-595 | an encoded attribute value without "&#x" is read back exactly, up to just past its closing quote |
| CharacterData.KeepingSurvives | impl_saori/XPath/tinyxpath/tinyxmlparser.cpp:574-595 | an attribute value survives encoding and reading if and only if it holds no "&#x" |
| CharacterData.HasReferenceMeaning | impl_saori/XPath/tinyxpath/tinyxml.cpp:61-84 | the condition on values is that "&#x" occurs nowhere in them |
| CharacterData.RawSurvives | impl_saori/XPath/tinyxpath/tinyxml.cpp:1420-1439 | a field that is written as it is, as those of a declaration are, is read back up to its closing quote if and only if it holds neither that quote nor an ampersand |
| References.DecimalReference | impl_saori/XPath/tinyxpath/tinyxmlparser.cpp:438-531 | the decimal digits of any number between "&#" and a semicolon are read as the character of its low byte, and in UTF-8 as the bytes of its code |
| References.HexReference | impl_saori/XPath/tinyxpath/tinyxmlparser.cpp:438-531 | so are hexadecimal digits behind "&#x", in any mixture of letter cases, by their places among the sixteen |
| References.NamedReferences | impl_saori/XPath/tinyxpath/tinyxmlparser.cpp:438-531 | the five names are read as the characters they stand for |
| References.CharactersWritten | impl_saori/XPath/tinyxpath/tinyxml.cpp:51-132 | the five characters with a name are written by it, those below 32 by two upper-case hexadecimal digits, and all others as they are |
| References.PassedThrough | impl_saori/XPath/tinyxpath/tinyxml.cpp:61-84 | a text of the form "&#x...;" in a value is written as it is, and what is behind it is encoded |
| References.OtherDigits | impl_saori/XPath/tinyxpath/tinyxmlparser.cpp:438-531 | a hexadecimal digit is one of the sixteen in either letter case and nothing else, a decimal one of the ten |
| References.BadDigit | impl_saori/XPath/tinyxpath/tinyxmlparser.cpp:438-531 | a text whose last character is neither a digit nor the mark has no number |
| References.BrokenReference | impl_saori/XPath/tinyxpath/tinyxmlparser.cpp:438-531 | a numeric reference without a semicolon, or without a number, breaks reading off in both encodings |
| References.UnknownName | impl_saori/XPath/tinyxpath/tinyxmlparser.cpp:438-531 | an ampersand that begins neither a number nor one of the five names yields nothing, and reading goes on behind it |
| References.CharacterTaken | impl_saori/XPath/tinyxpath/tinyxml.h:328-362 | in UTF-8 a character takes as many bytes as its first announces, and one that the text cuts off leads outside |
| RoundTrip.ShownSurvives | impl_saori/XPath/tinyxpath/tinyxml.cpp:1859-1876 | a value that is shown as a C string before its end tag, as a comment is, is read back if and only if it holds no NUL |
| Condensing.TrimmingReadsWords | impl_saori/XPath/tinyxpath/tinyxmlparser.cpp:596-636 | an encoded text without "&#x" is read back as its words, the runs of characters other than the space, joined by single spaces |
| Condensing.TrimmingReadsEncoded | impl_saori/XPath/tinyxpath/tinyxmlparser.cpp:596-636 | the same with any white space around the encoded text, up to the next tag |
| Condensing.TrimmingSurvives | impl_saori/XPath/tinyxpath/tinyxmlparser.cpp:596-636 | a text survives encoding and condensing reading if and only if it is condensed and holds no "&#x" |
| Condensing.CondensedIsJoinedWords | impl_saori/XPath/tinyxpath/tinyxmlparser.cpp:596-636 | the one-pass condensing loop computes the words joined by single spaces |
| Condensing.CondensedFixesExactly | impl_saori/XPath/tinyxpath/tinyxmlparser.cpp:596-636 | condensing leaves alone exactly the texts without a space at an end or two in a row |
| Condensing.CondensedIdempotent | impl_saori/XPath/tinyxpath/tinyxmlparser.cpp:596-636 | condensing twice is condensing once |
| RawText.TrimmingReadsRaw | impl_saori/XPath/tinyxpath/tinyxmlparser.cpp:596-636 | text as it stands in a file, without "<" and "&", is read as its runs of characters other than tab, line feed, vertical tab, form feed, carriage return and space, joined by single spaces |
| Characters.WhiteSpaceIs | impl_saori/XPath/tinyxpath/tinyxml.h:291-294 | white space is exactly the six characters with the codes 9 to 13 and 32 |
| Characters.ToLowerIs | impl_saori/XPath/tinyxpath/tinyxml.h:383-394 | each of the 26 capital letters becomes the small letter in its place, and no other character changes |
| Characters.NameCharactersAre | impl_saori/XPath/tinyxpath/tinyxmlparser.cpp:129-170 | a name begins with a letter, an underscore or a byte from 127 on, and goes on with those, digits, and "-", "." and ":" |
| XmlTree.CStrEnds | impl_saori/XPath/tinyxpath/tinyxml.cpp:1758-1888 | a string shown as a C string goes on to its end or to its first NUL |
| Scanner.SkipWhiteSpace | impl_saori/XPath/tinyxpath/tinyxmlparser.cpp:314-348 | null at the end of the text, otherwise the first position that is not white space |
| Scanner.StringEqual | impl_saori/XPath/tinyxpath/tinyxmlparser.cpp:534-572 | whether the tag stands here, with or without regard to case; nothing equals the end of the text |
| Scanner.ReadName | impl_saori/XPath/tinyxpath/tinyxmlparser.cpp:401-436 | the longest name that starts here, or null |
| Scanner.ReadTextKeeping | impl_saori/XPath/tinyxpath/tinyxmlparser.cpp:574-595 | the text up to the end tag with entities decoded, and a pointer past the end tag, which lies outside the text when there was none |
| Scanner.ReadTextTrimming | impl_saori/XPath/tinyxpath/tinyxmlparser.cpp:596-636 | the condensed text and a pointer past where the end tag stands, or would stand at the end of the input |
| Scanner.ReadRaw | impl_saori/XPath/tinyxpath/tinyxmlparser.cpp:1374-1386 | the raw text before the first end tag, and where that is |
| Errors.ErrorState.SetError | impl_saori/XPath/tinyxpath/tinyxmlparser.cpp:798-815 | the first error of a chain is kept |
| Parser.ParseAttributeValue | impl_saori/XPath/tinyxpath/tinyxmlparser.cpp:1421-1464 | a quoted value is read with entities, a bare one up to white space or the tag end; a quote inside a bare value is reported |
| Parser.ParseAttribute | impl_saori/XPath/tinyxpath/tinyxmlparser.cpp:1389-1464 | name, equals sign and value, or the error the specification says, reported only to an attribute that has a document |
| Parser.ParseTag | impl_saori/XPath/tinyxpath/tinyxmlparser.cpp:1084-1171 | the attribute loop fills the ring in order; a repeated name overwrites and gives up; ring, position and errors are as specified |
| Parser.Identify | impl_saori/XPath/tinyxpath/tinyxmlparser.cpp:818-912 | a new node of the announced kind with its parent set, or null exactly when no tag starts here |
| Parser.ParseComment | impl_saori/XPath/tinyxpath/tinyxmlparser.cpp:1335-1386 | the node becomes the comment of the specification |
| Parser.ParseText | impl_saori/XPath/tinyxpath/tinyxmlparser.cpp:1498-1547 | the node becomes a CDATA section or the text up to the next tag, where the pointer is set back to |
| Parser.ParseUnknown | impl_saori/XPath/tinyxpath/tinyxmlparser.cpp:1274-1305 | the node becomes the unknown tag of the specification |
| Parser.ParseDeclaration | impl_saori/XPath/tinyxpath/tinyxmlparser.cpp:1572-1629 | the node gets the three fields, in any order and case, each read through a temporary attribute |
| Parser.ParseElement | impl_saori/XPath/tinyxpath/tinyxmlparser.cpp:1049-1174 | the node becomes a linked tree with exactly the value, pointer and first error of the specification; all other nodes of the tree are new |
| Parser.ReadValue | impl_saori/XPath/tinyxpath/tinyxmlparser.cpp:1177-1246 | the loop links exactly the specified children below the element and keeps all lists well formed; blank texts are dropped |
| Parser.ParseNode | impl_saori/XPath/tinyxpath/tinyxmlparser.cpp:818-912 | parsing by kind builds the specified tree |
| Parser.ParseDocument | impl_saori/XPath/tinyxpath/tinyxmlparser.cpp:704-796 | parsing any text links exactly the specified trees in behind the children the document has, with the specified pointer and error; the document is reported empty for an empty text, or when there are no children at all; its own links stay, and all is one tree |
| Parser.IsBlank | impl_saori/XPath/tinyxpath/tinyxmlparser.cpp:1631-1637 | whether a text is all white space |
| Malformed.LeadingWhite | impl_saori/XPath/tinyxpath/tinyxmlparser.cpp:704-796 | white space before the first tag changes nothing |
| Malformed.NoTag | impl_saori/XPath/tinyxpath/tinyxmlparser.cpp:704-796 | a document in which no tag comes first is empty, which is reported |
| Malformed.BreaksOff | impl_saori/XPath/tinyxpath/tinyxmlparser.cpp:704-796 | an element that breaks off is the last node, and its error that of the document |
| Malformed.StopsAtText | impl_saori/XPath/tinyxpath/tinyxmlparser.cpp:704-796 | a document ends where something other than a tag follows its nodes, without an error for it |
| Malformed.KindsOfTags | impl_saori/XPath/tinyxpath/tinyxmlparser.cpp:818-912 | the kind of a tag by the characters behind its "<", the declaration in any letter case |
| Malformed.EndsInName | impl_saori/XPath/tinyxpath/tinyxmlparser.cpp:1049-1082 | the error for a text that ends in the name of an element |
| Malformed.TagBreaks | impl_saori/XPath/tinyxpath/tinyxmlparser.cpp:1084-1171 | how a start tag ends, and the error when the text ends, when a slash is not followed by ">", or when no name begins |
| Malformed.TagGoesOn | impl_saori/XPath/tinyxpath/tinyxmlparser.cpp:1084-1171 | which error an attribute that fails leaves, that one is reported when the text ends behind an attribute, and that a name that is there already overwrites and gives up without an error |
| Malformed.NoValue | impl_saori/XPath/tinyxpath/tinyxmlparser.cpp:1389-1420 | the error for an attribute without an equals sign |
| Malformed.EqualsRead | impl_saori/XPath/tinyxpath/tinyxmlparser.cpp:1389-1420 | white space may stand on both sides of the equals sign, and the error when nothing follows |
| Malformed.QuotedValue | impl_saori/XPath/tinyxpath/tinyxmlparser.cpp:1421-1464 | a value between quotes of either kind is read up to the second; one that does not end fails without an error of its own |
| Malformed.BareAttribute | impl_saori/XPath/tinyxpath/tinyxmlparser.cpp:1421-1464 | a value without quotes goes up to white space, a slash or ">"; a quote in it is an error |
| Malformed.ContentBreaks | impl_saori/XPath/tinyxpath/tinyxmlparser.cpp:1049-1246 | the errors for a text that ends behind a start tag or in the white space behind it, and for the end tag of another element |
| Malformed.CommentNeverEnds | impl_saori/XPath/tinyxpath/tinyxmlparser.cpp:1335-1386 | a comment that does not end takes all the text, without an error |
| Malformed.CDataNeverEnds | impl_saori/XPath/tinyxpath/tinyxmlparser.cpp:1498-1547 | so does a CDATA section |
| Malformed.UnknownNeverEnds | impl_saori/XPath/tinyxpath/tinyxmlparser.cpp:1274-1305 | an unknown tag may end with the text |
| Malformed.WordSkipped | impl_saori/XPath/tinyxpath/tinyxmlparser.cpp:1572-1629 | a word inside a declaration that begins no field is passed over |
| Malformed.FieldTaken | impl_saori/XPath/tinyxpath/tinyxmlparser.cpp:1572-1629 | a field of a declaration takes the value up to its first NUL; where the attribute fails, it takes what was read and nothing is read behind it |
| Printer.PrintAttributeText | impl_saori/XPath/tinyxpath/tinyxml.cpp:1214-1237 | name and value encoded, between single quotes exactly when the value holds a double quote |
| Printer.PrintDeclarationText | impl_saori/XPath/tinyxpath/tinyxml.cpp:1420-1439 | the fields that are not empty, unencoded |
| Printer.TiXmlPrinter.constructor | impl_saori/XPath/tinyxpath/tinyxml.h:1736-1737 | a new printer indents by four spaces and breaks lines by a line feed, a layout of white space only |
| Printer.TiXmlPrinter.DoIndent | impl_saori/XPath/tinyxpath/tinyxml.h:1781-1784 | appends the indentation once per depth |
| Printer.TiXmlPrinter.PrintAttributesOf | impl_saori/XPath/tinyxpath/tinyxml.cpp:1774-1778 | appends the attributes a walk by First and Next visits |
| Printer.TiXmlPrinter.SetStreamPrinting | impl_saori/XPath/tinyxpath/tinyxml.h:1767-1769 | the layout without white space |
| Printer.TiXmlPrinter.VisitEnter | impl_saori/XPath/tinyxpath/tinyxml.cpp:1768-1803 | appends the start tag; goes to one line exactly when the only child is a plain text |
| Printer.TiXmlPrinter.VisitExit | impl_saori/XPath/tinyxpath/tinyxml.cpp:1805-1829 | appends the end tag, indented unless on one line, and restores depth and flag |
| Printer.TiXmlPrinter.VisitText | impl_saori/XPath/tinyxpath/tinyxml.cpp:1831-1857 | a CDATA section raw, a text encoded, on a line of its own unless its element is on one line |
| Printer.TiXmlPrinter.Accept | impl_saori/XPath/tinyxpath/tinyxml.cpp:846-858 | visiting any tree of nodes, also one with a document among the nodes, appends exactly what printing its value means and restores depth and flag |
| Printer.TiXmlPrinter.AcceptDocument | impl_saori/XPath/tinyxpath/tinyxml.cpp:1160-1171 | visiting a document appends its children one after the other |
| Printer.ElementPrints | impl_saori/XPath/tinyxpath/tinyxml.cpp:1768-1829 | the recursive meaning of printing an element, in the pieces the visitor writes |
| Layout.AttributeWritten | impl_saori/XPath/tinyxpath/tinyxml.cpp:1214-1237 | an attribute is name, equals sign and encoded value in double quotes, or in single ones when it holds a double quote |
| Layout.PlainIsKept | impl_saori/XPath/tinyxpath/tinyxml.cpp:51-132 | a value without the five special characters and without control characters is written as it is |
| Layout.OneLine | impl_saori/XPath/tinyxpath/tinyxml.cpp:1768-1829 | an element whose only child is a plain text is written on one line |
| Layout.NoChildren | impl_saori/XPath/tinyxpath/tinyxml.cpp:1768-1829 | an element without children is written as one tag |
| Layout.Nested | impl_saori/XPath/tinyxpath/tinyxml.cpp:1768-1829 | other children stand on lines of their own, one indentation deeper than their parent |
| Layout.Indents | impl_saori/XPath/tinyxpath/tinyxml.h:1781-1784 | each step of depth adds one indentation |
| Layout.CutAtNul | impl_saori/XPath/tinyxpath/tinyxml.cpp:1768-1888 | names, comments, unknown tags and CDATA sections are written up to their first NUL, plain texts in full |
| AttributeMap.RunRefines | impl_saori/XPath/tinyxpath/tinyxml.cpp:416-429 | over any run of SetAttribute, RemoveAttribute and ClearThis the attributes are an insertion-ordered map with unique names |
| AttributeMap.EditRefines | impl_saori/XPath/tinyxpath/tinyxml.cpp:717-744 | each single edit is the edit of the map and of the insertion order |
| AttributeRing.TiXmlAttributeSet.constructor | impl_saori/XPath/tinyxpath/tinyxml.cpp:1502-1506 | the empty ring is the sentinel linked to itself |
| AttributeRing.TiXmlAttributeSet.Find | impl_saori/XPath/tinyxpath/tinyxml.cpp:1575-1583 | the first attribute of that name, or null when none has it |
| AttributeRing.TiXmlAttributeSet.Add | impl_saori/XPath/tinyxpath/tinyxml.cpp:1516-1529 | the ring stays circular through the sentinel with the attribute at its end |
| AttributeRing.TiXmlAttributeSet.Remove | impl_saori/XPath/tinyxpath/tinyxml.cpp:1531-1548 | the ring closes behind the attribute, which is left unlinked |
| AttributeRing.TiXmlAttributeSet.SetAttribute | impl_saori/XPath/tinyxpath/tinyxml.cpp:717-744 | overwrites in place or adds at the end; names stay unique |
| AttributeRing.TiXmlAttributeSet.RemoveAttribute | impl_saori/XPath/tinyxpath/tinyxml.cpp:416-429 | removes the attribute of that name, if there is one, and nothing else |
| AttributeRing.TiXmlAttributeSet.ClearThis | impl_saori/XPath/tinyxpath/tinyxml.cpp:543-552 | ends in the state the destructor of the set asserts |
| AttributeRing.TiXmlAttributeSet.EditAll | impl_saori/XPath/tinyxpath/tinyxml.cpp:416-429 | any run of edits on the ring leaves the contents the run of edits on the list gives |
| AttributeRing.TiXmlAttributeSet.Walk | impl_saori/XPath/tinyxpath/tinyxml.cpp:1174-1181 | a walk by First and Next visits the attributes up to the first one behind the head with empty name and value |
| AttributeRing.TiXmlAttributeSet.Ends | impl_saori/XPath/tinyxpath/tinyxml.h:913-916 | First and Last are the ends of the ring, or null |
| AttributeRing.VisibleAll | impl_saori/XPath/tinyxpath/tinyxml.cpp:1174-1181 | the walk visits every attribute if and only if none behind the first has both name and value empty |
| Dom.TiXmlNode.LinkEndChild | impl_saori/XPath/tinyxpath/tinyxml.cpp:184-208 | appends an unlinked tree; a document is refused, which its error state records; every list stays a well-formed doubly linked list, no other node gets another parent, and the root of a whole tree stays its root with the links it had |
| Dom.TiXmlNode.InsertBeforeChild | impl_saori/XPath/tinyxpath/tinyxml.cpp:226-255 | a new copy goes in right before the given child; refused for another parent, and for a document, which alone is recorded as an error; nothing else changes: no node gets another parent, and the root of a whole tree stays its root with the links it had |
| Dom.TiXmlNode.InsertAfterChild | impl_saori/XPath/tinyxpath/tinyxml.cpp:258-287 | a new copy goes in right behind the given child; refused for another parent, and for a document, which alone is recorded as an error; nothing else changes: no node gets another parent, and the root of a whole tree stays its root with the links it had |
| Dom.TiXmlNode.RemoveChild | impl_saori/XPath/tinyxpath/tinyxml.cpp:318-338 | takes exactly that child out, with all that is below it; refused for another parent; what stays keeps its parents, and one tree stays one |
| Dom.TiXmlNode.ReplaceChild | impl_saori/XPath/tinyxpath/tinyxml.cpp:290-315 | a new copy of any node, also of a document, stands in the place of the child, which goes with all that is below it; the other children and their values stay, as do all parents and the root of a whole tree; refused only for another parent |
| Dom.GraftValues | impl_saori/XPath/tinyxpath/tinyxml.cpp:184-208 | hanging a tree in at a place inserts its value at that place of the children |
| Dom.PruneValues | impl_saori/XPath/tinyxpath/tinyxml.cpp:318-338 | taking a child out removes its value at that place, the rest in order |
| Dom.SwapEdits | impl_saori/XPath/tinyxpath/tinyxml.cpp:290-315 | a replacement changes the value at that one place |
| Dom.SwappedDocuments | impl_saori/XPath/tinyxpath/tinyxml.cpp:290-315 | after a replacement there is a document below the node if and only if the original of the copy is one or there is one among or below the other children |
| Dom.InsertLinked | impl_saori/XPath/tinyxpath/tinyxml.cpp:226-287 | the pointer changes of an insertion keep every list of both trees linked |
| Dom.PruneLinked | impl_saori/XPath/tinyxpath/tinyxml.cpp:318-338 | the pointer changes of a removal keep every remaining list linked |
| Dom.InsertKept | impl_saori/XPath/tinyxpath/tinyxml.cpp:226-287 | the pointer changes of an insertion give no node of either tree another parent, but the root that is hung in, and leave the root of a whole tree as it is |
| Dom.PruneKept | impl_saori/XPath/tinyxpath/tinyxml.cpp:318-338 | the pointer changes of a removal leave every remaining node its parent, and the root of a whole tree as it is |
| Dom.RefusedMeans | impl_saori/XPath/tinyxpath/tinyxml.cpp:184-287 | a document put below a node leaves its error, unless one was reported before |
| Dom.KeptApart | impl_saori/XPath/tinyxpath/tinyxml.cpp:184-338 | after any edit a tree that was built earlier can still be hung in: no node of the edited one hangs in it |
| DomRuns.EditAll | impl_saori/XPath/tinyxpath/tinyxml.cpp:184-338 | main result: any run of the five edits, at any nodes of a tree and with any nodes of it or of other trees as originals, leaves one tree with every list well linked, whose shape is what the edits of the shape give one after the other; refused calls change nothing |
| DomRuns.EditOnce | impl_saori/XPath/tinyxpath/tinyxml.cpp:184-338 | each single call is the matching edit of the shape at the end of the path to its object |
| DomRuns.ParentTells | impl_saori/XPath/tinyxpath/tinyxml.cpp:226-230 | the test of the parent pointer decides whether the path to one node goes one step beyond the path to the other |
| DomRuns.OnePath | impl_saori/XPath/tinyxpath/tinyxml.cpp:184-338 | in a linked tree different paths from the root lead to different nodes |
| DomRuns.ChangeAlong | impl_saori/XPath/tinyxpath/tinyxml.cpp:184-338 | what changes at and below one node changes the tree at the end of the path to it and nowhere else |
| DomRuns.SwapChanges | impl_saori/XPath/tinyxpath/tinyxml.cpp:290-315 | a replacement exchanges the shape at that one place of the children |
| DomRuns.ShapeValue | impl_saori/XPath/tinyxpath/tinyxml.cpp:184-338 | the value of a tree is that of its shape |
| Shapes.WithKidsAt | impl_saori/XPath/tinyxpath/tinyxml.cpp:184-338 | an edit at the end of a path leaves every subtree beside the path and every label on it alone |
| Shapes.EditsMean | impl_saori/XPath/tinyxpath/tinyxml.cpp:184-338 | what each of the five edits makes of the children: one at the end, a clone right before or behind the child, none of it, or a clone in its place |
| Dom.TiXmlNode.Clone | impl_saori/XPath/tinyxpath/tinyxml.cpp:860-868 | the copy is one tree of new nodes only, its root unlinked and nothing below its leaves; the source is untouched; its value is the copy of the source value |
| Dom.TiXmlNode.CopyChildrenTo | impl_saori/XPath/tinyxpath/tinyxml.cpp:839-843 | the children of the target are copies of the children, in order, without those that are documents, which linking refuses |
| Dom.TiXmlNode.CopyAttributesTo | impl_saori/XPath/tinyxpath/tinyxml.cpp:829-837 | the attributes of the target are those the walk visits, set one by one |
| Copying.CopyIsIdentity | impl_saori/XPath/tinyxpath/tinyxml.cpp:824-868 | a copy equals its source if and only if no string holds a NUL, in every element the names are unique and the walk visits all attributes, and no document stands below another node |
| Copying.CopyIsDocumentFree | impl_saori/XPath/tinyxpath/tinyxml.cpp:824-868 | a copy never has a document below it |
| TokenRing.TokenList.TokenizeExpression | impl_saori/XPath/tinyxpath/tokenlist.cpp:39-108 | the pass ends, keeps the ring well formed through the sentinel, and leaves exactly what the left-to-right pair merger makes of the tokens |
| TokenRing.TokenList.Step | impl_saori/XPath/tinyxpath/tokenlist.cpp:44-106 | each round of the loop leaves the outcome of the whole pass unchanged and comes closer to the end |
| TokenRing.TokenList.AddToken | impl_saori/XPath/tinyxpath/tokenlist.h:74-84 | adds a token in front of the sentinel, as long as nothing was deleted |
| TokenRing.TokenList.DeleteCurrent | impl_saori/XPath/tinyxpath/tokenlist.h:129-139 | takes the current token out; the cursor is on the next one, or on the sentinel |
| TokenRing.TokenList.DeleteNext | impl_saori/XPath/tinyxpath/tokenlist.h:142-151 | takes the token behind the current one out |
| TokenRing.TokenList.ReplaceCurrent | impl_saori/XPath/tinyxpath/tokenlist.h:121-126 | changes kind and text of the current token only |
| TokenRing.TokenList.SetCurrentTop | impl_saori/XPath/tinyxpath/tokenlist.h:87-90 | the cursor is on the first token, or nowhere |
| TokenRing.TokenList.IncCurrent | impl_saori/XPath/tinyxpath/tokenlist.h:113-118 | the cursor moves on, or nowhere when it would meet the sentinel |
| TokenRing.TokenList.Get | impl_saori/XPath/tinyxpath/tokenlist.h:105-110 | the token so many places on, or null |
| TokenRing.LexToken.GetNext | impl_saori/XPath/tinyxpath/lex_token.h:88-103 | the token so many steps on unless the sentinel is met |
| TokenRing.TokenList.Clear | impl_saori/XPath/tinyxpath/tokenlist.h:66-72 | the destructor leaves only the sentinel |
| TokenMerging.MergeKeepsText | impl_saori/XPath/tinyxpath/tokenlist.cpp:39-108 | when each single-character token carries its own character, the texts in a row lose only those of the dropped spaces |
| TokenMerging.PairsBySpelling | impl_saori/XPath/tinyxpath/tokenlist.cpp:44-106 | two neighbours become one token exactly when their texts together are the text of a kind, and it is of that kind and has that text |
| TokenMerging.MergeKeepsSpelling | impl_saori/XPath/tinyxpath/tokenlist.cpp:39-108 | if every token of the thirteen kinds with one text has it, so has every token afterwards |
| TokenMerging.MergeKeepsLastSpace | impl_saori/XPath/tinyxpath/tokenlist.cpp:39-108 | afterwards only the last token can be a space, and it is one exactly when the list ended in one |
| TokenMerging.MergeFixes | impl_saori/XPath/tinyxpath/tokenlist.cpp:39-108 | the pass leaves alone exactly the lists with no pair to merge and no space before the last token |
| TokenMerging.SecondPassMerges | impl_saori/XPath/tinyxpath/tokenlist.cpp:39-108 | a second pass changes nothing if and only if no token that stays is followed, across dropped spaces, by one it makes a pair with |
| TokenMerging.SpacedColons | impl_saori/XPath/tinyxpath/tokenlist.cpp:39-108 | two colons around a space, which only a second pass merges |
| DocumentOrder.CompareNodeInTree | impl_saori/XPath/tinyxpath/node_set.cpp:291-333 | the recursive comparison answers by the places at which walks over nodes and attributes come across the two members, and not found for null arguments |
| DocumentOrder.CompareIsDocumentOrder | impl_saori/XPath/tinyxpath/node_set.cpp:291-333 | on all pairs of nodes and attributes of the tree this is document order (section 5 of XPath 1.0) if and only if no element has, behind its first attribute, one with an empty name and value |
| DocumentOrder.NodesCompareRight | impl_saori/XPath/tinyxpath/node_set.cpp:291-333 | on nodes it is document order in every tree |
| DocumentOrder.CompareHiddenAttribute | impl_saori/XPath/tinyxpath/node_set.cpp:291-333 | an element with such an attribute, which is in the tree but is not found when compared with itself |
| DocumentOrder.CompareIsRank | impl_saori/XPath/tinyxpath/node_set.cpp:291-333 | lower, same or higher exactly as the ranks of two members compare |
| DocumentOrder.CompareIsTotalOrder | impl_saori/XPath/tinyxpath/node_set.cpp:291-333 | the comparison is a strict total order on all members of a tree, nodes and attributes, if and only if no element has, behind its first attribute, one with an empty name and value |
| DocumentOrder.CompareMissing | impl_saori/XPath/tinyxpath/node_set.cpp:291-333 | of one member in the tree and one outside, the first comes first; with none the answer is not found |
| DocumentOrder.DocOrderOnce | impl_saori/XPath/tinyxpath/node_set.cpp:291-333 | in document order every node and every attribute stands once |
| DocumentOrder.NodesInOrder | impl_saori/XPath/tinyxpath/node_set.cpp:291-333 | the nodes in the order are the root and everything below it |
| DocumentOrder.KidsInOrder | impl_saori/XPath/tinyxpath/node_set.cpp:291-333 | everything below an earlier child stands before everything below a later one |
| NodeSet.NodeSet.AddBase | impl_saori/XPath/tinyxpath/node_set.cpp:170-221 | moves both arrays to longer ones with the new member and its flag last, unless it is there |
| NodeSet.NodeSet.ExistInSet | impl_saori/XPath/tinyxpath/node_set.cpp:158-167 | whether the member is in the set |
| NodeSet.NodeSet.CopyFrom | impl_saori/XPath/tinyxpath/node_set.cpp:37-53 | the assigned set has the same members and flags in arrays of its own |
| NodeSet.AddsAreFirstAdds | impl_saori/XPath/tinyxpath/node_set.cpp:170-221 | any run of adds into an empty set leaves the first add of each member, with its own flag and in order |
| NodeSet.AddsKeep | impl_saori/XPath/tinyxpath/node_set.cpp:170-221 | any run of adds keeps what was there in place and the members distinct, and ends with exactly the old and the added members |
| NodeSet.NodeSet.CopyNodeChildren | impl_saori/XPath/tinyxpath/node_set.cpp:63-76 | adds the element children of that name in order |
| NodeSet.NodeSet.CopyDescendants | impl_saori/XPath/tinyxpath/node_set.cpp:121-135 | adds the descendant elements of that name, each before what is below it |
| NodeSet.DescendantSet | impl_saori/XPath/tinyxpath/node_set.cpp:121-135 | from an empty set the descendants stand in it once each, in the order of the axis |
| Axes.DescendantsAreExact | impl_saori/XPath/tinyxpath/node_set.cpp:121-135 | the axis collects exactly the nodes below that are reached through elements only, themselves elements |
| Axes.DescendantsByName | impl_saori/XPath/tinyxpath/node_set.cpp:121-135 | exactly those whose name is the one looked up, if there is one, and strictly increasing in document order and by the comparison |
| NodeSet.NodeSet.AddAllFollowing | impl_saori/XPath/tinyxpath/node_set.cpp:228-249 | ends, and adds exactly the elements of that name, or all for "*", among the later siblings of the node and of its ancestors reached through elements, and the children of those siblings; none as an attribute |
| NodeSet.NodeSet.AddAllPreceding | impl_saori/XPath/tinyxpath/node_set.cpp:256-277 | adds exactly the elements of that name, or all for "*", among the earlier siblings and their children; none as an attribute |
| NodeSet.ChildrenSet | impl_saori/XPath/tinyxpath/node_set.cpp:63-76 | a set gains exactly the element children of the name looked up |
| NodeSet.DescendantsSet | impl_saori/XPath/tinyxpath/node_set.cpp:121-135 | a set gains exactly the elements of the name looked up that are reached through elements |
| AxisOrder.FollowingIncreases | impl_saori/XPath/tinyxpath/node_set.cpp:228-249 | the following axis comes across elements in document order |
| AxisOrder.PrecedingIsBackwards | impl_saori/XPath/tinyxpath/node_set.cpp:256-277 | the preceding axis goes backwards over the siblings, each before its element children |
| AxisOrder.AttributesInOrder | impl_saori/XPath/tinyxpath/node_set.cpp:291-333 | the attributes of an element compare higher than it, lower than what is below it, and as they stand |
| Axes.FollowingIsSound | impl_saori/XPath/tinyxpath/node_set.cpp:228-249 | what the following axis adds is an element after the context in document order, neither below it nor above it |
| Axes.PrecedingIsSound | impl_saori/XPath/tinyxpath/node_set.cpp:256-277 | what the preceding axis adds is an element before the context, neither below it nor above it |
| AxisMembers.FollowingIsExact | impl_saori/XPath/tinyxpath/node_set.cpp:228-249 | the following axis holds exactly the elements that are a later sibling of the context, or of a node above it reached through elements, or a child of such a sibling element |
| AxisMembers.PrecedingIsExact | impl_saori/XPath/tinyxpath/node_set.cpp:256-277 | the preceding axis holds exactly the earlier sibling elements of the context and their element children |
| AxisMembers.FollowingIsComplete | impl_saori/XPath/tinyxpath/node_set.cpp:228-249 | it has every element that follows apart if and only if each later sibling of the context or of a node above it has no element below its children, where it is an element reached through elements, and no element at all, where not |
| AxisMembers.PrecedingIsComplete | impl_saori/XPath/tinyxpath/node_set.cpp:256-277 | it has every element that precedes apart if and only if each earlier sibling of the context that is an element has no element below its children, and no other earlier sibling of the context or of a node above it has an element at or below it |
| AxisMembers.TallSibling | impl_saori/XPath/tinyxpath/node_set.cpp:228-277 | a tree of five elements in which the following axis of one and the preceding axis of another each miss an element |
| Axes.AxesAreDisjoint | impl_saori/XPath/tinyxpath/node_set.cpp:228-277 | no element is in both axes of a node |
| NodeSet.AxisSetsAreDisjoint | impl_saori/XPath/tinyxpath/node_set.cpp:228-277 | the sets that the two axes leave, for any two names, have no member in common |
| NodeSet.NodeSet.DocumentSort | impl_saori/XPath/tinyxpath/node_set.cpp:359-381 | whatever permutation the library sort produces, each flag stays with its member and no pair is lost |
| NodeSet.ComparePtr2AndFlag | impl_saori/XPath/tinyxpath/node_set.cpp:336-354 | the comparison given to the sort finds any two equal, because it passes the first node twice |
| NodeSet.SortMayMisorder | impl_saori/XPath/tinyxpath/node_set.cpp:359-381 | so the sort may leave any permutation, and all permutations of distinct members of the tree are in document order if and only if there are fewer than two of them |
| Base32.Base32Decode | impl_saori/totp_saori/totp.cpp:38-87 | queues and stacks of bits compute the decoding: an illegal character empties it, a "=" ends it, a zero last byte is dropped |
| Base32.EncodedIsDecoded | impl_saori/totp_saori/totp.cpp:38-87 | decoding the section 6 RFC 4648 encoding of any bytes, padded or not and in any letter case, gives them back but for one trailing zero byte when their number is a multiple of five |
| Base32.DecodingIsExact | impl_saori/totp_saori/totp.cpp:38-87 | the bytes come back if and only if their number is no multiple of five or the last is not zero |
| Base32.DecodedAreBytes | impl_saori/totp_saori/totp.cpp:38-87 | every value that is decoded fits a byte |
| Base32.AlphabetIs | impl_saori/totp_saori/totp.cpp:38-67 | the 32 characters of section 6 of RFC 4648 have the values of their places, in either letter case |
| Base32.HighestFirst | impl_saori/totp_saori/totp.cpp:52-83 | the bits of a number stand with the highest first |
| Base32.SymbolsMean | impl_saori/totp_saori/totp.cpp:38-67 | the characters before the first "=" have values, in order, if and only if all are in the alphabet |
| Base32.PushBits | impl_saori/totp_saori/totp.cpp:52-67 | the stack puts the five low bits on the queue, highest first |
| Base32.ReadByte | impl_saori/totp_saori/totp.cpp:69-83 | eight bits to a byte; missing bits are zeros on the right |
| Totp.FastPow | impl_saori/totp_saori/totp.cpp:129-140 | the power modulo 2 to the 32, for all bases and exponents |
| Totp.HashToTotp | impl_saori/totp_saori/totp.cpp:143-171 | the dynamic truncation of section 5.3 of RFC 4226, taken through hex text, modulo the 32-bit power of ten, in decimal padded to six |
| Totp.HexTextIsBigEndian | impl_saori/totp_saori/totp.cpp:145-157 | hex text read back as a number is the big-endian value of the bytes |
| Totp.SixDigits | impl_saori/totp_saori/totp.cpp:143-171 | with six digits and twenty bytes the password is six decimal digits whose value is the truncation modulo a million |
| Totp.TruncatedByBytes | impl_saori/totp_saori/totp.cpp:143-171 | the truncation is made of the four bytes at the low four bits of the last byte, without the highest bit |
| Totp.WorkedExample | impl_saori/totp_saori/totp.cpp:143-171 | the worked example of section 5.4 of RFC 4226 gives 872921 |
| Utf8.ConvertUtf32ToUtf8 | impl_saori/XPath/tinyxpath/tinyxmlparser.cpp:88-126 | the falling-through cases write the bytes of section 3 of RFC 3629 from last to first |
| Utf8.EncodedIsDecoded | impl_saori/XPath/tinyxpath/tinyxmlparser.cpp:88-126 | the bytes written for any code point decode to it by the bit layout of RFC 3629 |
| Utf8.TableIsLength | impl_saori/XPath/tinyxpath/tinyxmlparser.cpp:66-85 | the length table agrees with the length written exactly up to 0x13FFFF |
| Utf8.TableIsExact | impl_saori/XPath/tinyxpath/tinyxmlparser.cpp:66-85 | a first byte announces more than one byte exactly when it begins the writing of a code point below 0x140000 of that length |
| Utf8.Examples | impl_saori/XPath/tinyxpath/tinyxmlparser.cpp:88-126 | the characters of the examples of section 7 of RFC 3629 |
| Utf8Text.MarksAreCodes | impl_saori/XPath/tinyxpath/tinyxmlparser.cpp:314-348 | the three marks that count as white space are U+FEFF, U+FFFE and U+FFFF |
| Utf8Text.GetCharUtf8 | impl_saori/XPath/tinyxpath/tinyxml.h:328-362 | one character of as many bytes as the first announces, or one entity; a character that the end of the text cuts off leads outside the text |
| Utf8Text.GetEntityUtf8 | impl_saori/XPath/tinyxpath/tinyxmlparser.cpp:438-531 | numeric references give the UTF-8 bytes of their 32-bit code, named ones their character |
| Utf8Text.GetNumericText | impl_saori/XPath/tinyxpath/tinyxmlparser.cpp:438-531 | the digits summed in 32 bits and written as UTF-8 |
| Utf8Text.ReferenceReads | impl_saori/XPath/tinyxpath/tinyxmlparser.cpp:438-531 | a numeric reference to a Unicode code point reads as bytes that decode to it |
| Utf8Text.CodeIsOneUnit | impl_saori/XPath/tinyxpath/tinyxml.h:328-362 | what is written for any Unicode code point but the ampersand is read as one character |
| Utf8Text.KeepingReadsUtf8 | impl_saori/XPath/tinyxpath/tinyxmlparser.cpp:574-595 | an encoded value of whole characters without "&#x" is read back exactly in UTF-8 too |
| Utf8Survival.KeepingSurvivesUtf8 | impl_saori/XPath/tinyxpath/tinyxmlparser.cpp:574-595 | in UTF-8 a value of whole characters survives encoding and reading if and only if it holds no "&#x" |
| Utf8Survival.CodesSurvive | impl_saori/XPath/tinyxpath/tinyxmlparser.cpp:574-595 | a text of Unicode code points survives as an attribute value if and only if it holds no "&#x" |
| Utf8Text.SkipWhiteSpaceUtf8 | impl_saori/XPath/tinyxpath/tinyxmlparser.cpp:314-348 | white space and the three marks are skipped; null at the end of the text |
| Utf8Text.SkipsTheSame | impl_saori/XPath/tinyxpath/tinyxmlparser.cpp:314-348 | without a 0xEF byte in the text both encodings skip the same |
| Cursor.TiXmlParsingData.Stamp | impl_saori/XPath/tinyxpath/tinyxmlparser.cpp:196-311 | where its loop ends, the incremental cursor is the character-by-character walk from the last stamp: the row grows by one for each line end, and the column is that of the last line |
| Cursor.RowsAndColumns | impl_saori/XPath/tinyxpath/tinyxmlparser.cpp:196-311 | rows count the line ends, where carriage return and line feed in either order are one; columns count the characters behind the last one, a tab going to the least greater multiple of the tab size and the three marks taking none |
| Cursor.RowsAreFeeds | impl_saori/XPath/tinyxpath/tinyxmlparser.cpp:196-311 | in text without carriage returns the row grows by the number of line feeds |
| Cursor.WalkResumes | impl_saori/XPath/tinyxpath/tinyxmlparser.cpp:196-311 | stamping at one place and then at a later one gives the same row, column and stamp as stamping at the later one alone |
| Cursor.OnlyTheLastCounts | impl_saori/XPath/tinyxpath/tinyxmlparser.cpp:196-311 | any increasing run of stamps ends where the last one alone would |
| Cursor.WalkGrows | impl_saori/XPath/tinyxpath/tinyxmlparser.cpp:196-311 | row and column never go back |
| Cursor.LoopEnds | impl_saori/XPath/tinyxpath/tinyxmlparser.cpp:209-283 | the loop ends, at the place of the walk, if and only if it is not UTF-8 or no character before the new stamp begins with the byte 0xEF at one of the last two bytes of the text |
| Cursor.HangingText | impl_saori/XPath/tinyxpath/tinyxmlparser.cpp:255-283 | in the seven bytes of an unfinished element with such an attribute value the loop never comes to the end of the text |
| Cursor.EndsWithoutMark | impl_saori/XPath/tinyxpath/tinyxmlparser.cpp:209-283 | when neither of the last two bytes is 0xEF the loop ends from every place |
| Cursor.EndsInWholeText | impl_saori/XPath/tinyxpath/tinyxmlparser.cpp:209-283 | in text of whole characters the loop ends, and at whole characters again, so that any run of stamps ends |
| Cursor.CodedIsWhole | impl_saori/XPath/tinyxpath/tinyxmlparser.cpp:66-126 | text written for code points is made of whole characters |
| LineEnds.NormalizeLineEnds | impl_saori/XPath/tinyxpath/tinyxml.cpp:1033-1075 | the chunk-copying loop is the line-end normalisation of section 2.11 of XML 1.0, on every buffer |
| LineEnds.NormalizedIsTwoPasses | impl_saori/XPath/tinyxpath/tinyxml.cpp:1033-1075 | it equals dropping each carriage return before a line feed and then turning the others into line feeds |
| LineEnds.NormalizedKeeps | impl_saori/XPath/tinyxpath/tinyxml.cpp:1033-1075 | no carriage return remains and all other characters are kept in order |
| LineEnds.SecondPassChangesNothing | impl_saori/XPath/tinyxpath/tinyxml.cpp:1033-1075 | a second pass changes nothing |

## Left out

- Parser.ParseDocument: the change of encoding that a declaration or a byte order mark brings about.
- Dom.TiXmlNode.CloneDocument: the error state of a document is not copied, nor is the error that the copy records for a document below it.
- Entities.GetNumericReference: byte-per-character encoding only; `Utf8Text.GetNumericText` is its UTF-8 half.
- Entities.GetEntity: byte-per-character encoding only; `Utf8Text.GetEntityUtf8` is its UTF-8 half.
- Entities.GetChar: byte-per-character encoding only; `Utf8Text.GetCharUtf8` is its UTF-8 half.
- Scanner.SkipWhiteSpace: byte-per-character encoding only; `Utf8Text.SkipWhiteSpaceUtf8` is its UTF-8 half.
- Parser.ParseTag: splits the attribute loop from the rest of `TiXmlElement::Parse`, which goes on from its outcome.
- Printer.TiXmlPrinter.Accept: the `Accept` methods of the nodes are one method of the visitor, and the answers of the visits, always true, are left out.
- TokenRing.TokenList.AddToken: asks that nothing was deleted before, because the deletions do not update the pointer to the last token, and that the token is valid, which the lexer, its only caller, sees to.
- NodeSet.NodeSet.DocumentSort: the library's sort is known only by the permutation it makes.
- Axes.FollowingIsSound: one direction; `AxisMembers` has the exact members and the exact condition for having all.
- Axes.PrecedingIsSound: one direction; `AxisMembers` has the exact members and the exact condition for having all.
- Base32.Base32Decode: asks for a text with a symbol or an illegal character; for another the original takes the last byte of an empty vector.
- Totp.HashToTotp: asks for at least twenty bytes and a power of ten that is not zero in 32 bits, as the original indexes and divides; it pads to six digits whatever the number of digits.
- Cursor.TiXmlParsingData.Stamp: rows and columns are unbounded; asks for a C string, and that no character that begins with 0xEF is cut off before the new stamp, where the loop does not end.
- Documents.DocumentSurvives: asks that plain texts and attribute values hold no "&#x", that comments, unknown tags and CDATA sections hold no NUL, and that the fields of declarations hold no quote, ampersand or NUL. For each single value the exact condition is proved (`KeepingSurvives`, `TrimmingSurvives`, `ShownSurvives`, `RawSurvives`); that no whole document with such a value comes back is not.
- DomRuns.EditAll: no error state is passed along; the contracts of the single calls say what they report.
- UTF-8 for whole documents, and white space that is kept (`SetCondenseWhiteSpace(false)`).
- `v_copy_selected_node_recursive`, which skips to elements behind its first child, and the string values of node sets.
- The places of errors and nodes, the texts of errors, user data and tab sizes.
- Out-of-memory branches, the buffers of `TiXmlString`, and freeing memory.
- File access, the printers to files, and the stream operators.
- `base32_encode` and the generation of secrets, which is not the inverse of the decoder.
- Conversion of attributes to numbers, handles, and the lookups of children by name.
- The XPath processor above the tokens and the node sets, and everything else in the repository.
