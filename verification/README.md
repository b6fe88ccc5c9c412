# Models of the reactor library's in-memory cores, with proofs

The library around these structures does I/O; what is modelled here is what it keeps in memory, and what must hold of it
whatever the text, the kernel, the clock, the handlers and the scheduler do.

* **The markup editor** (`src/core/MarkupSTL.cpp`). A document is one flat string. Beside it stands an array of records
  with four offsets per element and parent/child/next links, repaired after every edit by a stackless tree walk instead of
  a new parse. `Markup.Document` is the editor; its ghost field `tree` is the document as a tree, `Layout` gives the
  offsets of a tree, and the class invariant says that the text is the rendering of the tree and the records are its
  layout. The main result: after any run of edits and cursor moves the index is, up to the slot numbers, exactly the tree
  and the four offsets a fresh parse of the text computes. `ElemIndex` holds the walk, `MarkupParse` the parser,
  `MarkupWellFormed` and `MarkupFresh` the proof that a parse computes the layout, `MarkupTree`, `MarkupEdit` and
  `MarkupState` what each edit does to text and layout, `MarkupKids` to the order of siblings, `MarkupTag`, `MarkupUntag` and `MarkupData` attributes and
  character data, `MarkupFind` the search by name and path, `MarkupProlog` and `MarkupSubDoc` subdocuments,
  `MarkupReturns` when the parser returns. `Base64` is the codec in the same file.
* **The poller** (`src/core/poller.cpp`). `PollerModel` is the slot table as a state machine: the kernel may deliver any id
  that was ever issued, and handlers run arbitrary operations in the middle of a batch. `Poller.PollerUnit` is the table
  with its linked free list and 32-bit sequence numbers, proved against it.
* **The timers** (`src/core/timerlist.cpp`, `include/list.h`). `TimerModel` is one FIFO per timeout value with callbacks that
  arm and disarm timers, `IntrusiveList` the circular list, `Timer.TimerUnit` the unit itself: timers linked in rings of
  nodes that are rewritten in place, proved against the FIFOs.
* **IniFile** (`Server/IniFile.cpp`) in `IniText`, `IniSetGet` and `IniFile`; **CConfig** (`src/core/config.cpp`) in
  `ConfigText`, `ConfigRoundTrip` and `Config`; **CRawCache** (`src/core/cache.cpp`) in `RawCache`; **CSingleton**
  (`include/Singleton.inl`) in `Singleton`.

A C string is the sequence of its characters before the terminating NUL. Integers are unbounded except where the width
decides something: the 32-bit sequence numbers of the poller, the 32-bit sums of `CRawCache::append`, the bytes and words
of Base64. Outcomes of `epoll_ctl`, the memory pool and the file system, the clock and the behaviour of handlers and
callbacks are parameters, so that every statement is about all of them.

Results that say where the code does not do what its interface suggests:

* `x_ParseElem` does not return if and only if one of its searches for a start tag is led by complete nodes and character
  data to a `<` followed by blanks and `?` or `!`: `MarkupReturns.EndlessIff`, `MarkupReturns.DivergesIff`. It returns on
  every text without such a mark (`MarkupReturns.ParseReturns`), and on some with one it never comes to
  (`MarkupReturns.MarkBehindRoot`).
* `x_AddSubDoc` skips what stands before the root of a subdocument with a loop that takes each offset relative to the
  node before it, but counts it from the start of the text. It ends at the root if and only if at most one node stands
  before it, or a later node the loop meets is as long as all of them together (`MarkupProlog.RootIff`); the second is
  ruled out where no node found from inside them goes past the root (`MarkupProlog.NothingSpans`). It never ends if a
  second node is as long as the first, or is white space shorter than it (`MarkupProlog.SecondAsLong`,
  `MarkupProlog.DeclarationThenSpace`, the text of `MarkupProlog.TwoComments`). In general it ends if and only if it has
  ended after one round per character: `MarkupProlog.StopsIff`.
* Of a subdocument with elements `x_AddSubDoc` indexes the first one, which is all of it if and only if it is the only
  root (`MarkupSubDoc.SeveralRoots`); with a subdocument that has none it indexes the element that follows in the
  document a second time (`MarkupSubDoc.NoRoots`).
* `InsertElem` on a document without a root locates the new root one character behind the start of the text. The record
  is where a parse finds the root if and only if the text is not empty and does not start with `<`:
  `Markup.RootInsertIff`. On a text that starts with `<` the record says 1 and a parse finds a mark at 0
  (`Markup.RootInsertFails`); on the empty text the offset is past its end.
* An `OutputNotify` that follows an `InputNotify` of the same event is not verified again. It goes to the latest id of the
  slot if and only if the input handler did not bump the slot: `PollerModel.OutputLatest`, `PollerModel.StaleOutput`.
* What `SetItemValue` writes is found again by `GetItemValue` if and only if the value is not empty, does not start with
  a blank and holds no tab and no line end, the header of the section is followed by a line end, and the key is in the
  section already or has no line that starts with `[`: `IniSetGet.SetGet`.
* `CRawCache::append` writes past its block if and only if its first 32-bit sum wraps around: `RawCache.BranchFits`,
  with the numbers of `RawCache.WrappedSum`.
* `Instance` reads the pointer again when it returns. What it returns is live if and only if the pointer is set and no
  thread stands between deleting the object and clearing the pointer: `Singleton.ReturnLive`, over every run
  `Singleton.AllLiveIff`. With `Destroy` it may return an object just deleted (`Singleton.StaleResult`) or null
  (`Singleton.NullResult`); without `Destroy` neither happens (`Singleton.OneObject`).
* `DecodeBase64` subtracts the padding of all groups so far again with every group. `Base64.DecodeLength` gives the
  length it returns for every text and buffer; it is negative exactly by `Base64.NegativeIff`, never with three or fewer
  `=` in the text (`Base64.FewPaddings`), and -1 for `====` (`Base64.OnlyPadding`).
* A configuration read from a text is read back from its dump if and only if no key starts with `[`, `#`, `?`, `;` or a
  character that is not printable, and no value ends with CR: `ConfigRoundTrip.RoundTrip`, with the lost values of
  `ConfigRoundTrip.CommentedKey` and `ConfigRoundTrip.DoubledCR`.
* `CheckPending` serves zero timers that its own callbacks attach. It returns if from some callback on none leaves a zero
  timer behind, and never if all do: `TimerModel.SettledEnds`, `TimerModel.UnsettledEndless`, `TimerModel.SameCallbacks`.

## Model

| member | source | states |
|---|---|---|
| `TextScan.FindChar` | src/core/MarkupSTL.cpp:765-781 | the loop stops at the first occurrence of the character |
| `TextScan.FindToken` | src/core/MarkupSTL.cpp:783-840 | the token loops compute the token function: blanks skipped, quoted strings, single special characters, words |
| `ElemIndex.AdjustMoves` | src/core/MarkupSTL.cpp:1436-1486 | the records the walk visits, each visited exactly once, are those after the position in document order (both ends) and its ancestors (the end only); descendants of the position are included unless bAfterPos |
| `ElemIndex.WalkTree` | src/core/MarkupSTL.cpp:1436-1486 | on every well-linked tree the walk turns an index of the tree into an index of the tree shifted behind the position, and changes no link |
| `ElemIndex.MoveAround` | src/core/MarkupSTL.cpp:1436-1486 | moving the records after an element and the ends of its ancestors is the recursive shift of the tree |
| `ElemIndex.UnlinkWalk` | src/core/MarkupSTL.cpp:1436-1486 | the walk still works from an element that was just unlinked, and leaves the index of the remaining tree |
| `MarkupTree.ReplaceText` | src/core/MarkupSTL.cpp:1414-1434 | replacing an element of the tree is splicing its text |
| `MarkupTree.ReplaceLayout` | src/core/MarkupSTL.cpp:1414-1486 | replacing an element changes the layout as splice and walk change the records |
| `MarkupTree.NodeLayout` | include/MarkupSTL.h:124-143 | the record of an element holds the four offsets its text has in the document |
| `MarkupParse.ParseElemSound` | src/core/MarkupSTL.cpp:641-763 | a successful parse numbers its slots in preorder without a gap, nests children strictly inside their parents' content, keeps siblings disjoint and increasing, and every offset points at its mark |
| `MarkupParse.FindDocTypeEnd` | src/core/MarkupSTL.cpp:989-1013 | the token loop over a document type |
| `MarkupParse.ParseNode` | src/core/MarkupSTL.cpp:949-1049 | kind and end of the node at a position |
| `MarkupParse.MarkedNode` | src/core/MarkupSTL.cpp:949-1049 | an instruction, a CDATA section and a comment end behind their first closing mark and are refused without one; an end tag is no node; any other mark starts an element |
| `MarkupParse.PlainDocType` | src/core/MarkupSTL.cpp:989-1013 | a document type without quotes and brackets ends at the first `>` |
| `MarkupParse.PlainNode` | src/core/MarkupSTL.cpp:949-1049 | text goes up to the next mark, and is white space exactly if it is all blank |
| `MarkupParse.ParsePaired` | src/core/MarkupSTL.cpp:641-763 | in every text that is parsed, each element is closed in its own start tag or by an end tag that begins where the record says and bears the name of the start tag |
| `MarkupParse.FindEndTag` | src/core/MarkupSTL.cpp:730-758 | the token loop over an end tag: slash, matching name, closing bracket |
| `MarkupWellFormed.GapSkip` | src/core/MarkupSTL.cpp:660-700 | the search for a start tag passes over character data, CDATA, comments, instructions and document types |
| `MarkupWellFormed.ParseElemComplete` | src/core/MarkupSTL.cpp:641-763 | parsing the text of any well-formed element computes exactly its layout |
| `MarkupWellFormed.ParseKidsComplete` | src/core/MarkupSTL.cpp:708-728 | the same for the children loop |
| `MarkupFresh.FreshParse` | src/core/MarkupSTL.cpp:49-91 | a fresh parse of the rendering of a tree computes its layout, renumbered, and fails if there is no root |
| `MarkupFresh.LayoutSound` | src/core/MarkupSTL.cpp:641-763 | the offsets of every document the editor keeps are nested and point at their marks |
| `MarkupFresh.EmptyEditable` | src/core/MarkupSTL.cpp:49-91 | the empty document is one the editor keeps |
| `MarkupReturns.EndlessIff` | src/core/MarkupSTL.cpp:660-700 | the search for a start tag never ends exactly if complete nodes and character data lead to a `<` followed by blanks and `?` or `!` |
| `MarkupReturns.DivergesIff` | src/core/MarkupSTL.cpp:641-763 | the parser does not return exactly if one of the searches it makes is such a search |
| `MarkupReturns.KidsDivergeIff` | src/core/MarkupSTL.cpp:708-728 | the same for the children loop |
| `MarkupReturns.BlankMarkDiverges` | src/core/MarkupSTL.cpp:672-690 | in particular on every text where such a mark ends the first gap |
| `MarkupReturns.ParseReturns` | src/core/MarkupSTL.cpp:660-700 | the parser returns on every text without such a mark |
| `MarkupReturns.MarkBehindRoot` | src/core/MarkupSTL.cpp:660-700 | a mark that is never reached does not matter |
| `MarkupEdit.InsertBelow` | src/core/MarkupSTL.cpp:1575-1709 | linking a new element and walking from it gives the layout of the tree with the element inserted |
| `MarkupEdit.RemoveBelow` | src/core/MarkupSTL.cpp:1814-1847 | unlinking an element and walking from it gives the layout of the tree without it |
| `MarkupKids.InsertOrder` | src/core/MarkupSTL.cpp:1488-1573 | the new element stands right before or right behind the position, first or last, and the other siblings keep their order |
| `MarkupKids.RemoveOrder` | src/core/MarkupSTL.cpp:1814-1847 | the removed element is gone from its siblings, the others keep their order, and the cursor goes to the one before it |
| `MarkupKids.TrimMeans` | src/core/MarkupSTL.cpp:783-840 | how far the white space behind an element goes that is cut with it |
| `MarkupTag.FindAttrib` | src/core/MarkupSTL.cpp:1063-1100 | the loop over the tokens of a start tag finds the value token of the first attribute that matches |
| `MarkupTag.ScanTag` | src/core/MarkupSTL.cpp:1063-1100 | in a well-formed start tag the scan ends at the value of the first attribute that matches the name, quotes included, and finds nothing if there is none |
| `MarkupTag.CountTag` | src/core/MarkupSTL.cpp:1063-1100 | the names the scan meets that match are those of the attributes of the tag that match |
| `MarkupTag.GetSetAttr` | src/core/MarkupSTL.cpp:1123-1163 | setting an attribute changes that attribute and no other |
| `MarkupUntag.NextName` | src/core/MarkupSTL.cpp:1063-1100 | without a name, one call finds the next attribute name, or none behind the last |
| `MarkupUntag.RemovedText` | src/core/MarkupSTL.cpp:1166-1193 | cutting from one blank before an attribute to its closing quote leaves the tag without that attribute |
| `MarkupUntag.CountWithout` | src/core/MarkupSTL.cpp:1166-1193 | one attribute fewer matches the name |
| `MarkupUntag.CutIs` | src/core/MarkupSTL.cpp:1166-1193 | the text cut goes from one blank before the first name that matches to the quote behind its value |
| `MarkupUntag.GetWithout` | src/core/MarkupSTL.cpp:1166-1193 | every attribute but the removed one is read as before |
| `MarkupData.EscapeRoundTrip` | src/core/MarkupSTL.cpp:1341-1412 | unescaping an escaped string gives it back |
| `MarkupData.EscapeClean` | src/core/MarkupSTL.cpp:1341-1375 | an escaped string holds no mark, and no quote in an attribute |
| `MarkupData.Entities` | src/core/MarkupSTL.cpp:1377-1412 | which character each of the five entities stands for in any text; any other `&` stands for itself |
| `MarkupData.PlainChar` | src/core/MarkupSTL.cpp:1377-1412 | so does any other character |
| `MarkupData.Escapes` | src/core/MarkupSTL.cpp:1341-1375 | which characters are escaped, and how, in data and in attributes |
| `MarkupData.TextToDoc` | src/core/MarkupSTL.cpp:1341-1375 | the escape loop |
| `MarkupData.TextFromDoc` | src/core/MarkupSTL.cpp:1377-1412 | the unescape loop |
| `MarkupData.ReadCData` | src/core/MarkupSTL.cpp:1301-1339 | a CDATA section reads back the text it was made of |
| `MarkupData.ReadText` | src/core/MarkupSTL.cpp:1301-1339 | escaped data reads back |
| `MarkupState.RecordAt` | include/MarkupSTL.h:124-143 | what the record of a live element says about its text; the test for an empty element is exact |
| `MarkupState.RetagLayout` | src/core/MarkupSTL.cpp:1123-1163 | the offsets after a start tag changed its length |
| `MarkupState.FillLayout` | src/core/MarkupSTL.cpp:1238-1299 | the offsets after the data of an element changed, empty elements opened up |
| `MarkupState.AddedIndex` | src/core/MarkupSTL.cpp:1575-1709 | the index after an element joined its siblings |
| `MarkupState.OpenedWalked` | src/core/MarkupSTL.cpp:1677-1702 | the index after an element went into an empty element, which gets an end tag |
| `MarkupState.RemovedIndex` | src/core/MarkupSTL.cpp:1814-1847 | the index after an element was removed |
| `MarkupState.KidStep` | src/core/MarkupSTL.cpp:708-728 | what one round of the children loop writes |
| `MarkupProlog.SkipProlog` | src/core/MarkupSTL.cpp:1742-1750 | the loop over the nodes before the root of a subdocument, each offset relative to the node before |
| `MarkupProlog.StopsIff` | src/core/MarkupSTL.cpp:1742-1747 | it ends if and only if it has ended after one round per character and one more |
| `MarkupProlog.OneNode` | src/core/MarkupSTL.cpp:1742-1747 | with at most one node before the root it ends at the root |
| `MarkupProlog.RootIff` | src/core/MarkupSTL.cpp:1742-1747 | for every text: it ends at the root if and only if at most one node stands before it, or the loop meets behind the first node one that is as long as all that stands before the root |
| `MarkupProlog.NothingSpans` | src/core/MarkupSTL.cpp:1742-1747 | where no node found from inside the prolog goes past its end, it ends at the root if and only if at most one node stands before it |
| `MarkupProlog.SecondAsLong` | src/core/MarkupSTL.cpp:1742-1747 | with a second node as long as the first it never ends |
| `MarkupProlog.DeclarationThenSpace` | src/core/MarkupSTL.cpp:1742-1747 | nor with white space between a declaration longer than it and the root |
| `MarkupProlog.TwoComments` | src/core/MarkupSTL.cpp:1742-1747 | a text on which it never ends |
| `MarkupSubDoc.RootParsed` | src/core/MarkupSTL.cpp:1769-1772 | parsing a subdocument with one root in place computes its numbered layout |
| `MarkupSubDoc.SeveralRoots` | src/core/MarkupSTL.cpp:1769-1809 | of a subdocument with elements the first is parsed, which is all of it if and only if it is the only root |
| `MarkupSubDoc.NoRoots` | src/core/MarkupSTL.cpp:1769-1809 | with a subdocument without an element, the element that follows in the document is parsed again |
| `Markup.ReadAfterSet` | src/core/MarkupSTL.cpp:1102-1163 | x_GetAttrib after x_SetAttrib returns the value, and every other attribute keeps its value |
| `Markup.ReadBack` | src/core/MarkupSTL.cpp:1238-1339 | x_GetData after x_SetData returns the data, with CDATA, without, and where the text holds "]]>" |
| `Markup.DataMeans` | src/core/MarkupSTL.cpp:1301-1339 | what any document holds as data of an element: nothing beside children, the text of a CDATA section as it is, other text with its entities decoded |
| `Markup.DataWrittenIs` | src/core/MarkupSTL.cpp:1238-1299 | the exact text after the data was set: between the tags, as a CDATA section if asked for and possible, else escaped |
| `Markup.WrittenIs` | src/core/MarkupSTL.cpp:1123-1163 | the exact text after an attribute was set: its value replaced, or blank, name and quoted value at the end of the tag |
| `Markup.GoneIs` | src/core/MarkupSTL.cpp:1166-1193 | the exact text after an attribute was removed; there is one such attribute less, and none exactly if there was one |
| `Markup.CutMeans` | src/core/MarkupSTL.cpp:1814-1847 | the exact text after an element was removed |
| `Markup.NewInIs` | src/core/MarkupSTL.cpp:1575-1709 | the new element has the name, reads back the data, has no children and stands where the call says; the text has grown by exactly its text |
| `Markup.GraftInIs` | src/core/MarkupSTL.cpp:1711-1812 | the same for the root of a subdocument with everything below it |
| `Markup.NextLookup` | src/core/MarkupSTL.cpp:893-908 | without a path the next sibling or the first child is found, with `/` the root |
| `Markup.RootInsertFails` | src/core/MarkupSTL.cpp:1512-1518 | InsertElem of a root into a text that starts with `<` records offset 1 while a parse finds an element at 0 |
| `Markup.RootInsertIff` | src/core/MarkupSTL.cpp:1488-1531 | for every text without a root: the place located for a new root is where a parse of the result finds one, if and only if the text is not empty and does not start with `<` |
| `Markup.Document.constructor` | include/MarkupSTL.h:27-28 | a new document is what SetDoc leaves; an empty one is valid, so that a run may start from it |
| `Markup.Document.SetDoc` | src/core/MarkupSTL.cpp:49-91 | the index is that of the parse, or cleared; a text that is a tree with one root becomes a valid document |
| `Markup.Document.ParseDoc` | src/core/MarkupSTL.cpp:64-87 | the parse part of SetDoc |
| `Markup.Document.FindStart` | src/core/MarkupSTL.cpp:660-700 | the loop that looks for a start tag; only the end offset of the parent changes |
| `Markup.Document.ParseElem` | src/core/MarkupSTL.cpp:641-763 | writes exactly the records of the parse into fresh slots and the parent's end offset; the slot is released at an end tag |
| `Markup.Document.ParseInner` | src/core/MarkupSTL.cpp:708-728 | the children loop |
| `Markup.Document.Adjust` | src/core/MarkupSTL.cpp:1436-1486 | the stackless walk visits the sequence of records `ElemIndex.AdjustMoves` is about |
| `Markup.Document.SetAttrib` | src/core/MarkupSTL.cpp:1123-1163 | keeps the invariant, changes only the start tag, in the exact text; tag name and other attributes stay, the attribute reads back |
| `Markup.Document.RemoveAttrib` | src/core/MarkupSTL.cpp:1166-1193 | succeeds exactly if there is such an attribute; keeps the invariant and the tag name; the text loses exactly that attribute, of those that match one is gone, and every other attribute keeps its value |
| `Markup.Document.LocateOld` | src/core/MarkupSTL.cpp:1166-1193 | the search for the attribute to remove and the range to cut |
| `Markup.Document.GetAttrib` | src/core/MarkupSTL.cpp:1102-1113 | the value of the attribute, for any name |
| `Markup.Document.GetName` | src/core/MarkupSTL.cpp:1051-1061 | the tag name of an element |
| `Markup.Document.SetData` | src/core/MarkupSTL.cpp:1238-1299 | refuses elements with children; otherwise keeps the invariant, the text between the tags is exactly the escaped or CDATA text, and the data reads back |
| `Markup.Document.GetData` | src/core/MarkupSTL.cpp:1301-1339 | the data of an element; at position 0 nothing if there is a root, else the text as far as record 0 goes |
| `Markup.Document.FindElem` | src/core/MarkupSTL.cpp:149-164 | the next element the path or name leads to; without a path the next sibling, or the first child of the parent position |
| `Markup.Document.FindChildElem` | src/core/MarkupSTL.cpp:166-185 | the next child the path or name leads to; with no main position one is looked for first, and if there is none the search starts at the root |
| `Markup.Document.FindPath` | src/core/MarkupSTL.cpp:893-908 | where the search by path starts: at the root for an absolute path, else behind the position or at the children of the parent |
| `Markup.Document.FollowPath` | src/core/MarkupSTL.cpp:910-945 | the loop over siblings and path steps finds what the recursive search over the tree finds |
| `MarkupFind.SearchName` | src/core/MarkupSTL.cpp:910-945 | looking for a name finds the first sibling that has it, and one exactly if there is one |
| `MarkupFind.SearchInto` | src/core/MarkupSTL.cpp:910-945 | the rest of a path is looked for among the children of the first sibling that has the first name, and only there |
| `MarkupFind.SearchStar` | src/core/MarkupSTL.cpp:910-945 | `*` stands for the first sibling, whatever its name |
| `Markup.Document.IntoElem` | src/core/MarkupSTL.cpp:325-341 | main position becomes parent position |
| `Markup.Document.OutOfElem` | src/core/MarkupSTL.cpp:343-352 | and back |
| `Markup.Document.ResetPos` | include/MarkupSTL.h:43 | no position |
| `Markup.Document.RemoveElem` | src/core/MarkupSTL.cpp:431-441 | exactly the element and the white space behind it are cut out, the other siblings keep their order, the invariant is kept, the cursor goes to the previous sibling |
| `Markup.Document.RemoveChildElem` | src/core/MarkupSTL.cpp:443-453 | the same for the child position |
| `Markup.Document.RemoveAt` | src/core/MarkupSTL.cpp:1814-1847 | x_RemoveElem |
| `Markup.Document.LocateNew` | src/core/MarkupSTL.cpp:1488-1573 | in which gap, and where in it, a new element goes: the case distinction |
| `Markup.Document.LocateBy` | src/core/MarkupSTL.cpp:1506-1531 | next to a sibling: where it starts, or behind its end at the mark after the white space |
| `Markup.Document.LocateRoot` | src/core/MarkupSTL.cpp:1519-1531 | in a document without a root: behind its first character, or at its end |
| `Markup.Document.LocateIn` | src/core/MarkupSTL.cpp:1519-1569 | the part of it below an element: at the start or at the end of its content |
| `Markup.Document.GetFreePos` | src/core/MarkupSTL.cpp:606-615 | the next slot; records are kept when the array grows |
| `Markup.Document.AddElem` | src/core/MarkupSTL.cpp:1575-1709 | the new element has its name, data and no children, stands among its siblings where the call says, the text grows by exactly its text, the invariant is kept, the cursor goes to it |
| `Markup.Document.OpenNew` | src/core/MarkupSTL.cpp:1677-1702 | an element added to an empty element |
| `Markup.Document.AddChildSubDoc` | src/core/MarkupSTL.cpp:1711-1812 | where the loop before the root ends, it succeeds exactly if the parse in place does; a failing parse is undone completely (text, records, links, parent's end, free index, cursor); a subdocument with one root is grafted in at its place among the siblings |
| `Markup.Document.ParsePatch` | src/core/MarkupSTL.cpp:1752-1779 | splice, parse, and the revert |
| `Markup.Document.ValidAgrees` | src/core/MarkupSTL.cpp:641-763 | the live index equals what a fresh parse of the text computes, up to slot numbers |
| `Markup.Document.Run` | src/core/MarkupSTL.cpp:1123-1847 | after any run of AddElem, InsertElem, their child forms, SetAttrib, RemoveAttrib, SetData, subdocuments, RemoveElem, searches and cursor moves the index agrees with a fresh parse, and every call of it had its effect on text, siblings, attributes, data and cursor |
| `Markup.Document.Perform` | src/core/MarkupSTL.cpp:1123-1847 | the effect of one call, whichever it is |
| `Base64.RoundTrip` | src/core/MarkupSTL.cpp:471-599 | decoding an encoded byte string gives it back in every nonempty buffer that can hold it |
| `Base64.Alphabet` | src/core/MarkupSTL.cpp:484-525 | the code characters in order |
| `Base64.TestVectors` | src/core/MarkupSTL.cpp:484-525 | encodings given in section 10 of RFC 4648 |
| `Base64.QueryEnough` | src/core/MarkupSTL.cpp:537-539 | the length query never returns less than the length of the bytes |
| `Base64.EncodeLength` | src/core/MarkupSTL.cpp:484-525 | the exact length of the text |
| `Base64.EstimateEnough` | src/core/MarkupSTL.cpp:475-478 | the estimate is never exceeded, and has no slack exactly when n mod 3 is 1 and the group count is not a multiple of 16 |
| `Base64.EncodeBase64` | src/core/MarkupSTL.cpp:471-528 | the loops write the encoded text inside the estimated size |
| `Base64.DecodeBase64` | src/core/MarkupSTL.cpp:530-599 | the loops compute the decoding of any text and store only inside the buffer |
| `Base64.DecodeLength` | src/core/MarkupSTL.cpp:544-599 | the length returned for any text and any buffer: three bytes a group less all the padding met so far, or 0 if a group does not fit |
| `Base64.NegativeIff` | src/core/MarkupSTL.cpp:544-599 | it is negative exactly if every group fits and that sum is negative |
| `Base64.FewPaddings` | src/core/MarkupSTL.cpp:544-599 | a text with at most three paddings has no negative length |
| `Base64.LastPadded` | src/core/MarkupSTL.cpp:544-599 | with padding in the last group only, the length is three bytes a group less that padding |
| `Base64.OnlyPadding` | src/core/MarkupSTL.cpp:544-596 | a text of four paddings has length -1 |
| `PollerModel.StepInv` | src/core/poller.cpp:23-144 | every operation, with succeeding or failing epoll calls, keeps slots, owners and issued ids consistent |
| `PollerModel.ApplyApplied` | src/core/poller.cpp:120-144 | applying gives the slot a new id exactly if the masks differ, puts the new mask in force exactly if epoll_ctl succeeds, and changes nothing else |
| `PollerModel.AttachApplied` | src/core/poller.cpp:40-89 | attaching takes the first free slot with a new id, and keeps it if epoll_ctl fails |
| `PollerModel.SlotsConserved` | src/core/poller.cpp:210-280 | after any run: acyclic free list, used and free slots partition the table and add up to its size, each used slot has one owner that points back |
| `PollerModel.VerifiedOwner` | src/core/poller.cpp:244-254 | an event that passes VerifyEvents is for the latest id of its slot, attached to the live object that issued it |
| `PollerModel.Run` | src/core/poller.cpp:23-144 | a run of operations keeps the invariant |
| `PollerModel.Process` | src/core/poller.cpp:299-366 | a batch keeps the invariant; objects are accessed only while they exist |
| `PollerModel.HandleServes` | src/core/poller.cpp:304-365 | which calls an event gets: none if it is not verified, with hangup only Hangup, else Input exactly if reported and then Output exactly if reported and the input handler left the slot with its owner and returned success; what each handler did took effect, and masks are applied at the end |
| `PollerModel.ProcessServes` | src/core/poller.cpp:299-366 | every event of a batch is served so, in order |
| `PollerModel.VerifiedLatest` | src/core/poller.cpp:244-254 | an issued id is verified exactly while it is the latest of its slot |
| `PollerModel.DispatchGood` | src/core/poller.cpp:299-366 | every handler call of a batch goes to a live, attached object that issued that id, as the slot's latest for input and hangup, whatever earlier handlers freed or reallocated |
| `PollerModel.OutputLatest` | src/core/poller.cpp:324-357 | an output call is for the latest id exactly if the input handler of the event did not bump the slot |
| `PollerModel.StaleOutput` | src/core/poller.cpp:324-357 | an input handler that detaches and attaches again makes it outdated |
| `Poller.IdRoundTrip` | include/poller.h:9-10 | slot and sequence number of an id |
| `Poller.PollerUnit.constructor` | src/core/poller.cpp:210-228 | the free list links all slots |
| `Poller.PollerUnit.TakeEpollSlot` | src/core/poller.cpp:265-280 | the first free slot is taken |
| `Poller.PollerUnit.FreeEpollSlot` | src/core/poller.cpp:256-263 | the slot goes to the head of the free list and its number is bumped |
| `Poller.PollerUnit.AttachPoller` | src/core/poller.cpp:40-89 | attaching, with its return code and its whole effect on slots, ids and objects, in each of its cases |
| `Poller.PollerUnit.DetachPoller` | src/core/poller.cpp:101-118 | detaching, with its return code and its whole effect |
| `Poller.PollerUnit.ApplyEvents` | src/core/poller.cpp:120-144 | a new id exactly when the event mask changed, and nothing else |
| `Poller.PollerUnit.DeleteObject` | src/core/poller.cpp:23-38 | a deleted object gives its slot back |
| `Poller.PollerUnit.VerifyEvents` | src/core/poller.cpp:244-254 | the 32-bit test |
| `Poller.PollerUnit.HandleEvent` | src/core/poller.cpp:304-365 | one round of the event loop makes the calls of `PollerModel.HandleServes` |
| `Poller.PollerUnit.ProcessPollerEvents` | src/core/poller.cpp:299-366 | the loop serves every event, and all its calls are good |
| `TimerModel.StepInv` | src/core/timerlist.cpp:18-28 | every FIFO stays sorted by deadline, timers are in one list at most |
| `TimerModel.StepMeans` | src/core/timerlist.cpp:18-28 | what an operation does: the timer leaves its FIFO, its deadline is set, it is last in the one of its timeout; all others stay in place |
| `TimerModel.StepExpired` | src/core/timerlist.cpp:18-28 | no operation makes a timer due; the timer it is about is not due any more |
| `TimerModel.FireOk` | src/core/timerlist.cpp:37-45 | firing a timer and running its callback leaves fewer timers due |
| `TimerModel.FireListOk` | src/core/timerlist.cpp:30-47 | a FIFO is left without a due timer, although only its front is inspected |
| `TimerModel.FireListsOk` | src/core/timerlist.cpp:135-139 | so are all of them, though callbacks add lists |
| `TimerModel.FirePendingOk` | src/core/timerlist.cpp:116-127 | where the loop returns, no timer is pending; it fires only timers that are pending, and those its callbacks attach as well |
| `TimerModel.SettledEnds` | src/core/timerlist.cpp:116-127 | the loop returns if from some callback on none leaves a zero timer attached |
| `TimerModel.UnsettledEndless` | src/core/timerlist.cpp:116-127 | it never returns if every callback leaves one |
| `TimerModel.SameCallbacks` | src/core/timerlist.cpp:116-127 | with callbacks that all do the same it returns exactly if nothing is pending or they leave none |
| `TimerModel.PassFires` | src/core/timerlist.cpp:129-141 | a pass fires a timer only if it was due at the start, or made a zero timer by a callback of the pending loop, and no event since was about it; no such timer and no expired timer is left at the end |
| `TimerModel.PlainPass` | src/core/timerlist.cpp:129-141 | where pending callbacks attach no zero timer, the pass returns and fires each timer due at its start exactly once, unless an earlier callback touched it, and no other timer |
| `TimerModel.PassCount` | src/core/timerlist.cpp:129-141 | the number a pass returns is the number of timers that fired |
| `TimerModel.LoopRearms` | include/ICC_Timer_Handler.h:34-39 | a looping timer is armed again after it fired, and not due in the same pass |
| `Timer.TimerUnit.GetTimerList` | src/core/timerlist.cpp:49-62 | the list for a timeout, created with an empty ring if need be |
| `Timer.TimerUnit.AttachTimer` | src/core/timerlist.cpp:18-28 | the node of the timer leaves its ring and joins the tail of the other, with a new deadline; all rings stay linked |
| `Timer.TimerUnit.AttachZeroTimer` | include/timerlist.h:51 | the node joins the tail of the pending ring |
| `Timer.TimerUnit.ListMoveTail` | include/list.h:122-127 | one node moves to the end of a ring, from any ring or none; every other ring and lone timer stays as it is |
| `Timer.TimerUnit.ListDel` | include/list.h:101-105 | unlinking a node takes its timer out of the one FIFO it is in |
| `Timer.TimerUnit.NextOwner` | include/list.h:283 | the node behind the head is the front of the FIFO |
| `Timer.TimerUnit.CheckList` | src/core/timerlist.cpp:30-47 | the loop over the front of one list |
| `Timer.TimerUnit.CheckPending` | src/core/timerlist.cpp:116-127 | the loop over the pending ring makes the rounds of the model wherever it returns |
| `Timer.TimerUnit.CheckExpired` | src/core/timerlist.cpp:129-141 | the pass, with the properties of `TimerModel.PassFires`, and its return value the number of timers that fired |
| `Timer.TimerUnit.ExpireMicroSeconds` | src/core/timerlist.cpp:78-114 | a wait of at most msec that never goes past an armed deadline, and falls short of msec only if a deadline comes before its next millisecond, though only the front of each list is read |
| `Timer.WithoutIsCut` | include/list.h:101-105 | removing a timer from a FIFO is cutting a node out of its ring |
| `IntrusiveList.CutCircle` | include/list.h:79-83 | linking the neighbours of a node cuts it out of its circle |
| `IntrusiveList.AppendCircle` | include/list.h:37-45 | a node linked between the last one and the head is the new last one |
| `IntrusiveList.DelInit` | include/list.h:101-105 | the node ends up alone, the others stay a ring in order; done to a lone node it changes nothing |
| `IntrusiveList.AddTail` | include/list.h:67-70 | append |
| `IntrusiveList.MoveTail` | include/list.h:122-127 | remove, then append, from another ring, from the same one, or from none |
| `IntrusiveList.IsEmpty` | include/list.h:133-136 | only the head is in the ring |
| `IntrusiveList.FreeList` | include/list.h:268-271 | terminates with every node alone |
| `IniText.LocatorsAgree` | Server/IniFile.cpp:745-998 | both key locators stop at the same key: the value lies in the range that is replaced, and there is no value in it if none is found |
| `IniText.SectionEndIs` | Server/IniFile.cpp:682-715 | a section ends at the first `[` with nothing but blanks before it on its line, or at the end of the text |
| `IniSetGet.GetItemMeans` | Server/IniFile.cpp:328-403 | a value that is found stands behind the key and `=` on a line of the section: no header lies between the header found and the value |
| `IniSetGet.FirstEntry` | Server/IniFile.cpp:883-998 | an entry is found if its key does not occur before it in the section |
| `IniSetGet.FirstSection` | Server/IniFile.cpp:614-719 | a section is found where its header first occurs, if that stands apart |
| `IniSetGet.SetItemWrites` | Server/IniFile.cpp:453-592 | the text written: one line with key and value in place of the line of the key, or at the start of the section |
| `IniSetGet.MarchSame` | Server/IniFile.cpp:1051-1093 | a match depends only on the text up to its end and the character behind it |
| `IniSetGet.SectionKept` | Server/IniFile.cpp:614-719 | a section starts at the same place after an entry in it was written |
| `IniSetGet.KeyFoundAgain` | Server/IniFile.cpp:883-998 | the key search stops at the entry that was written |
| `IniSetGet.GotValue` | Server/IniFile.cpp:960-998 | whatever is found as a value is not empty, does not start with a blank and holds no tab and no line end |
| `IniSetGet.SetGet` | Server/IniFile.cpp:328-592 | getting after setting returns the value exactly if it is a value the parser can read, the header is followed by a line end, and the key is in the section already or has no line that starts with `[` |
| `IniFile.ToLower` | Server/IniFile.cpp:1154-1173 | the loop |
| `IniFile.SearchMarchStr` | Server/IniFile.cpp:1051-1093 | the loop over matches |
| `IniFile.IniFile.FindSection` | Server/IniFile.cpp:614-719 | the header looked for, and the end of its section as in `IniText.SectionEndIs` |
| `IniFile.IniFile.FindKeyRange` | Server/IniFile.cpp:745-856 | the line of the key that is replaced |
| `IniFile.IniFile.FindKeyValue` | Server/IniFile.cpp:883-998 | the bounds of the value of the key in its section |
| `IniFile.IniFile.GetItemValue` | Server/IniFile.cpp:328-403 | the value, of a key in that section and before the next header, clipped to the buffer |
| `IniFile.IniFile.SetItemValue` | Server/IniFile.cpp:453-592 | bytes outside the key range are kept, the shadow stays the lower-cased content, the value reads back |
| `ConfigText.FindPut` | include/config.h:31-38 | the nested maps, sorted and blind to case, last write wins |
| `ConfigText.SameNameMeans` | include/config.h:31-38 | names are the same if they differ in the case of letters only |
| `ConfigRoundTrip.ClipTwice` | src/core/config.cpp:219-256 | a value ends where it ended before when it is read again |
| `ConfigRoundTrip.ClipMeans` | src/core/config.cpp:219-256 | where a value ends: at the last such quote, at the first closing bracket, or before trailing blanks; it is refused exactly if there is no such end |
| `ConfigRoundTrip.ValueRead` | src/core/config.cpp:103-263 | `key = text` behind any text of whole lines gives the key of the section in force exactly that value, or nothing if it is refused, and changes no other |
| `ConfigRoundTrip.SectionValueRead` | src/core/config.cpp:103-263 | the same for `[section].key = text` in the section named |
| `ConfigRoundTrip.HeaderRead` | src/core/config.cpp:103-263 | a header puts its section in force and changes no value |
| `ConfigRoundTrip.DefaultRead` | src/core/config.cpp:103-263 | before any header the default section is in force |
| `ConfigRoundTrip.OneSorted` | src/core/config.cpp:103-135 | with the default section alone the sections are sorted |
| `ConfigRoundTrip.QuietLine` | src/core/config.cpp:153-165 | which lines say nothing, and which are refused for their first character |
| `ConfigRoundTrip.SectionEntry` | src/core/config.cpp:103-263 | a line that names its section makes the section even if its value is refused |
| `ConfigRoundTrip.LinesSplit` | src/core/config.cpp:103-263 | the return code of a text is that of its lines |
| `ConfigRoundTrip.LineVerdict` | src/core/config.cpp:103-263 | and of a line, whether it is refused |
| `ConfigRoundTrip.DumpLooks` | src/core/config.cpp:56-84 | the text of a dump |
| `ConfigRoundTrip.TextOk` | src/core/config.cpp:103-263 | what every text is parsed to |
| `ConfigRoundTrip.DumpThenParse` | src/core/config.cpp:56-84 | dump and parse give for every section and key its value, less a CR at its end |
| `ConfigRoundTrip.RoundTrip` | src/core/config.cpp:56-263 | the configuration of any text is read back, every section and key, exactly if every key can start a line and no value ends with CR |
| `ConfigRoundTrip.LongestLost` | src/core/config.cpp:56-263 | the longest key that cannot start a line has no value after dump and parse, whatever the other lines set |
| `ConfigRoundTrip.DoubledCR` | src/core/config.cpp:137-146 | a text whose value ends with CR |
| `ConfigRoundTrip.CommentedKey` | src/core/config.cpp:155-158 | the value of a key that starts with `#` is set and lost in a dump |
| `Config.Config.ParseConfig` | src/core/config.cpp:103-263 | the loop over lines, and its return code |
| `Config.Config.GetStrVal` | src/core/config.cpp:281-289 | the value; marking it as used changes no value |
| `Config.Config.Dump` | src/core/config.cpp:56-84 | the text written, sections and keys in the order of the maps |
| `RawCache.BranchFits` | src/core/cache.cpp:47-88 | the branch chosen has room for the data exactly if the first 32-bit sum does not wrap |
| `RawCache.WrappedSum` | src/core/cache.cpp:47-88 | numbers for which the block is taken for large enough and is not |
| `RawCache.InOrder` | src/core/cache.cpp:28-112 | after any run of the steps Append and Skip make, the queue holds the end of what was put in, in order |
| `RawCache.RawCache.Data` | src/core/cache.cpp:17-24 | the first byte, inside the block |
| `RawCache.RawCache.Append` | src/core/cache.cpp:28-89 | contents become contents and data through every branch, a step of `RawCache.InOrder`; it throws exactly if it needs a block and gets none; blocks stay balanced |
| `RawCache.RawCache.Skip` | src/core/cache.cpp:90-112 | drops the bytes, or all of them and the block, a step of `RawCache.InOrder` |
| `Singleton.StepInv` | include/Singleton.inl:11-41 | every step of every thread keeps mutex and objects consistent |
| `Singleton.OneLive` | include/Singleton.inl:11-41 | in every interleaving at most one object is live, and none is destroyed twice |
| `Singleton.OneObject` | include/Singleton.inl:11-27 | without Destroy at most one object is created and every Instance returns it |
| `Singleton.ReturnLive` | include/Singleton.inl:11-41 | what Instance returns is live exactly if the pointer is set and no thread stands between delete and clear |
| `Singleton.AllLiveIff` | include/Singleton.inl:11-41 | in every run all calls return live objects exactly if none returns in that window or without a pointer |
| `Singleton.StaleResult` | include/Singleton.inl:11-41 | with Destroy a thread may return a deleted object |
| `Singleton.NullResult` | include/Singleton.inl:11-41 | or null |

## Left out

- Editing of nodes that are not elements (x_AddNode, x_RemoveNode, the node branch of x_SetData): it shifts only the first child before the walk, so the index does not agree in general.
- SavePos and RestorePos, GetOffsets, GetChildSubDoc, FindNode: easy members beside what is proved, or, for saved positions, orphaned by removals on purpose.
- Markup.Document.AddChildSubDoc: of a subdocument that is parsed but is not one element followed by a gap (text only, several roots) only the success is stated, because the index is then not that of the document, see MarkupSubDoc.SeveralRoots and MarkupSubDoc.NoRoots.
- Markup.Document.Run: an InsertElem that would have to add the root of a text it cannot go into is not performed, see RootInsertFails; the subdocuments of a run are one element followed by a gap, behind a start at which the loop of MarkupProlog ends.
- Markup.Document.SetAttrib: the name of a new attribute holds no separator and no quote; the source writes any name unchecked.
- Markup.Document.GetData: position 0 of an empty document, where the source reads behind the end of the text, and of one whose record 0 goes past its end.
- Markup.Document.AddElem: names hold no separator and no quote either.
- Markup.Document.SetDoc: documents whose start tags hold `<` or `>` inside quotes, or several roots, are parsed but not edited; the editor never writes such tags.
- RemoveElem cuts the white space x_FindToken skips behind the element, which includes a single quote character before the next tag; the model cuts the same.
- Memory and capacity policy of strings and vectors, except the growth of the position array; error messages.
- Poller: sockets, epoll system calls, AttachPoller with an object of another unit, the base class handlers that abort.
- Timers: lists with a timeout of 0 or less; object deletion is disabling; callbacks are about timers that exist before the pass.
- IntrusiveList: list_move, list_splice, list_del.
- IniFile: reading and writing the file (an outcome is a parameter), the number variants, GetAllSections and GetAllKeys; GetItemValue with a buffer of one byte, which would read in front of it.
- IniSetGet.SetGet: a new key that starts with a line end.
- ConfigRoundTrip.RoundTrip: the default section has a name that a header line can hold.
- Config: Dump with decoration, the number, size and index getters, files.
- CMemPool: only that a block is at least as large as asked for; ~CRawCache, which gives no block back.
- Singleton: weaker memory models than sequential consistency.
- Packet tables, memory checker, shared-memory clock, logging, memcached client, statistics.
