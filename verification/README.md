# Verified model of libEGD's XML engine and codecs

libEGD reads its Ethernet Global Data configuration through pugixml, publishes typed variables in fixed-size pages,
and addresses its servers with URLs. This project models the parts of those components in which a small slip would go
unnoticed, and proves that they mean what they should. The results are for all documents, queries, texts and histories
of operations that meet the preconditions listed below.

**XPath.** A document is a sequence of nodes in preorder (`Document`); every finite tree has that form. `Axes` holds
the axes of section 2 of XPath 1.0 and the pointer walks that enumerate them, `XPathSemantics` the plain meaning of
expressions by sets, `XPathOptimizer` the rewriting pass, `XPathEval` the eager evaluator with its order tags, three
modes and fast forms, and `XPathQuery` the result for whole queries. `DocumentOrder`, `Sorting`, `NodeSets` and
`Translate` are what the evaluator stands on. `ExprSyntax` has the grammar of queries, `ExprParser` the parser with
its precedence climbing; `ExprTyping` shows that what it accepts can be evaluated, and `Abbreviations` what the
abbreviations in paths stand for. `Productions`, `QueryNames` and `QueryTexts` state the grammar, the names and the
short forms of a query without the tables of the parser, `TreeAxes`, `XPathFacts` and `TreeQueries` what is selected
in a tree without the terms of the evaluator, and `SimplestForm` what the rewriting pass achieves.

**DOM and memory.** `Dom` and `DomMoves` are the intrusive sibling lists with their circular back pointer, `CopyTree`
the non-recursive deep copy, `SharedStrings` the strings that a copy may share with its source, `Allocator` the page
allocator with its busy and freed ledgers, `AllocatorRuns` its runs, `HashTable` the open-addressing table. These are
classes whose fields are updated in place; a ghost map or ghost contents says what they stand for. `DomMeaning` and
`AllocatorPlaces` say what that amounts to for lists, subtrees and single bytes of memory.

**Text.** `Utf` has the decoders and the traits they drive, `BufferedWriter` the transcoding output buffer,
`AttributeText` the escapes and escaping output, `TextReading` what the readers of attribute values, text, comments
and CDATA sections mean, `InPlaceReading` with `GapEditing` those readers, `Integers` saturating integer parsing.
`UtfLayout`, `XmlCharacters` and `NumberText` give the bits, codes and digits that these stand on as numbers.

**Codecs.** `EgdCodec` is the payload codec of the JSON client, `UrlQuery` the query part of URLs. `EgdPage` and
`UrlCharacters` say byte by byte and character by character what they write and read.

Reading order for a proof: the main statement of a component is the first row of its group below.

## What came out false

- An element may carry two attributes of one name, because the XML parser does not refuse them. The walk that stops at
  the first match of `@name` then loses the second: `Axes.RepeatedAttributeLost` is a document that shows it, and
  `Axes.NamedAttributeStop` says exactly when the shortcut is right. The lookup that replaces `[@name = 'text']` is
  right for all texts exactly when the repeated attributes agree (`XPathOptimizer.LookupExact`); `RepeatedLookupLost`
  is a case where they do not. The XPath results are therefore stated in two readings of `@name`. In the reading of
  the engine, where it means the first attribute of that name, they hold for all documents; in the reading of the
  standard for documents in which no element repeats a name that the query asks for (`NamesApart`), which section 3.1
  of XML 1.0 demands of all names.
- A relational comparison of a boolean with a node-set compares node by node instead of converting the node-set to a
  boolean first. `XPathQuery.RelationalDeparture` gives the operand types on which the code follows section 3.4 of
  XPath 1.0, in both directions. The evaluator is proved against what the code does.
- The slow comparison of two attributes returns true for an attribute and itself (`DocumentOrder.Compare`), so it is
  no strict order, and `partition` does compare the pivot with itself. `Sorting.Sort` is proved for such comparisons
  too, on ranges without repeats, which is what the evaluator sorts: a pivot then lands in the front zone, and it is
  the median of three that keeps the loop from standing still (`Sorting.NotAllInFront`).
- The bounds check of `Publish` also refuses a variable that ends with the last byte of the payload, exactly such
  variables (`EgdCodec.RefusedExactly`), and it fails the whole message where the comment beside it says the variable
  is skipped: `EgdCodec.LastByteRefused` is a message with one BYTE at byte 1399.
- A character reference from 2^21 on is not refused but spelled as something else (`AttributeText.ReferenceExact`, in
  both directions), because only the low bits of its number are kept; it becomes a NUL exactly for the multiples of
  2^32 (`AttributeText.ReadAsNul`). `AttributeText.ReferencesMisread` has two inputs. Printing never makes such a
  reference; the print-then-parse result is for values without NUL, as a value ends at its first NUL.
- The option for NMTOKENS normalisation keeps white space that a reference stands for, in front of a value or beside
  other white space (`TextReading.ReferenceKept`). `WnormExact` says exactly when the value is what section 3.3.3 of
  XML 1.0 asks for; in any case it has the same words (`WnormKeepsWords`).
- In a type narrower than int, the integer parser compares after promotion and returns the lower bound for every
  negative text. `Integers.PromotionExact` says exactly when all texts are read right; the types for which the code is
  used are wide enough.

## Preconditions taken from the code

- Queries given as expressions are typed as the parser types them (`Typed`), which `ExprTyping.TreeTyped` shows of all
  that it accepts, and variables and library functions return their declared types. A node-set variable lists no node
  twice, and its order tag is true.
- Buffer places that are still known follow document order (`InBufferOrder`): moving or sharing nodes sets a flag that
  makes the code forget them all.
- The memory for a new page overlaps no page in use; the sentinel takes 192 bytes.
- The first request to the allocator is small: a large one would need a page before the sentinel. Sizes are positive
  and rounded to the block alignment, as all callers do; a freed block is a live one.
- A hash table insert needs the load condition that `reserve` establishes. Keys are not null.
- Writes to the buffered writer do not begin with a continuation byte after an unfinished character; writes of whole
  characters never do.
- URL text is 7-bit when printed. When parsed it is arbitrary.
- The variables of a page that are read back lie inside the payload.

## Model

| member | source | states |
|---|---|---|
| XPathQuery.SelectNodes | libEGD-master/src/egd/util/external/pugixml/pugixml.cc:12480-12500 | For every document, well-typed query and context: the optimized query, evaluated with all shortcuts, yields exactly the node-set the query means, each node once, under a truthful order tag. The meaning is the plain one with @name read as the first attribute of that name; if no element repeats a name the query asks for, it is the meaning of the standard; what that set is for a given tree is said by TreeAxes and XPathFacts |
| XPathQuery.SelectNode | libEGD-master/src/egd/util/external/pugixml/pugixml.cc:12502-12522 | First-only evaluation of the optimized query returns the document-order first node of what the query means, and null exactly when that is empty; in both readings of @name as above |
| XPathQuery.SelectByText | libEGD-master/src/egd/util/external/pugixml/pugixml.cc:12554-12558 | From the tokens of a query to its nodes: refused if and only if they are no text of the grammar or no query for nodes; otherwise the nodes that its one tree means, each once, for every document and all variables; the grammar is that of Productions, the nodes are those of QueryNames |
| XPathQuery.EvaluateBoolean | libEGD-master/src/egd/util/external/pugixml/pugixml.cc:12385-12404 | The boolean computed with any-mode evaluation and existential comparisons is that of the query's meaning, in both readings of @name |
| XPathQuery.EvaluateNumber | libEGD-master/src/egd/util/external/pugixml/pugixml.cc:12406-12426 | The number computed is that of the query's meaning, for every result type, in both readings of @name |
| XPathQuery.EvaluateString | libEGD-master/src/egd/util/external/pugixml/pugixml.cc:12428-12448 | The string computed is that of the query's meaning, in both readings of @name; for a node-set, of its first node in document order |
| XPathQuery.ModesAgree | libEGD-master/src/egd/util/external/pugixml/pugixml.cc:9343-9346 | Three evaluations of one expression in the three modes agree on emptiness, and first-only and all agree on the first node |
| XPathQuery.RelationalDeparture | libEGD-master/src/egd/util/external/pugixml/pugixml.cc:9348-9417 | `<`, `<=`, `>`, `>=` agree with section 3.4 of XPath 1.0 on all values of two operand types if and only if the types are not one boolean and one node-set; equality always agrees |
| TreeQueries.SelectPath | libEGD-master/src/egd/config/producer_config.cpp:28-29 | The text /n1/n2/... of any names, parsed, optimized and evaluated on the document of any tree, selects exactly the nodes reached from the root by kids that are elements of these names, in turn |
| TreeQueries.NamedPathOnTree | libEGD-master/src/egd/util/external/pugixml/pugixml.cc:9923-9967 | What such a query means is that set, by names and kids of the tree alone |
| TreeQueries.PathText | libEGD-master/src/egd/util/external/pugixml/pugixml.cc:11475-11503 | Its tokens, a slash before each name, are a text of the grammar, and its nodes are child steps from the root |
| XPathOptimizer.OptimizeSound | libEGD-master/src/egd/util/external/pugixml/pugixml.cc:10708-10780 | The rewriting pass keeps the value of every well-typed expression in every context: for all documents when @name means the first such attribute, and in the reading of the standard for documents that repeat no name the expression asks for |
| XPathOptimizer.OptimizeShape | libEGD-master/src/egd/util/external/pugixml/pugixml.cc:10708-10780 | The pass keeps type and typing and leaves every predicate with a class that truly describes it |
| XPathOptimizer.MergeSound | libEGD-master/src/egd/util/external/pugixml/pugixml.cc:10745-10759 | Folding descendant-or-self::node()/axis::test[preds] into one step keeps the selected set for every document and context, repeated attributes or not, given position-invariant predicates |
| XPathOptimizer.PosInvariantValue | libEGD-master/src/egd/util/external/pugixml/pugixml.cc:10782-10826 | An expression that is_posinv_expr accepts has one value for all positions and sizes |
| XPathOptimizer.KeptPosInvariant | libEGD-master/src/egd/util/external/pugixml/pugixml.cc:10741-10742 | A filter by a position-invariant predicate is a filter of single nodes, whatever the order of the list |
| XPathOptimizer.StripPositionSound | libEGD-master/src/egd/util/external/pugixml/pugixml.cc:10724-10730 | [position() = e] and [e] keep the same nodes when e is a number |
| XPathOptimizer.UseTableSound | libEGD-master/src/egd/util/external/pugixml/pugixml.cc:10761-10771 | translate() through a generated table has the value of translate() with the two maps |
| XPathOptimizer.LookupSound | libEGD-master/src/egd/util/external/pugixml/pugixml.cc:10773-10779 | Attribute lookup has the value of the general comparison @name = string: always when @name means the first such attribute, and in the reading of the standard when no element repeats the name |
| XPathOptimizer.LookupExact | libEGD-master/src/egd/util/external/pugixml/pugixml.cc:10773-10779 | In the reading of the standard the lookup agrees with the comparison on an element, for all strings, if and only if all its attributes of that name have the same value |
| XPathOptimizer.RepeatedLookupLost | libEGD-master/src/egd/util/external/pugixml/pugixml.cc:10773-10779 | On a document with one element a="1" a="2" the predicate [@a='2'] is true and its optimized form false |
| SimplestForm.OptimizeSimplest | libEGD-master/src/egd/util/external/pugixml/pugixml.cc:10708-10780 | After one pass no rule applies anywhere: no // is left in front of a step that could take it over, no [position() = n], no translate() with ASCII constants, no comparison that a lookup could do, and every predicate has the strongest class it can have |
| SimplestForm.SimplestStays | libEGD-master/src/egd/util/external/pugixml/pugixml.cc:10708-10780 | The expressions in that form are exactly the ones the pass leaves as they are; so a second pass changes nothing |
| XPathSemantics.ReadingsAgree | libEGD-master/src/egd/util/external/pugixml/pugixml.cc:9929-9932 | An expression has the same value in both readings of @name if no element repeats a name that it asks for |
| XPathSemantics.UniqueApart | libEGD-master/src/egd/util/external/pugixml/pugixml.cc:9929-9932 | Where attribute names are unique, as section 3.1 of XML 1.0 demands, that holds of every expression |
| XPathFacts.StepPredicate | libEGD-master/src/egd/util/external/pugixml/pugixml.cc:9913-9967 | Section 2.4 of XPath 1.0: a node of a step is kept if the predicate holds at its proximity position, one more than the number of selected nodes in front of it, counted against document order on the axes that lead back; but for @name where it means the first attribute of that name |
| XPathFacts.NextPredicate | libEGD-master/src/egd/util/external/pugixml/pugixml.cc:9513-9521 | Any number of predicates: each next one counts among the nodes that those in front of it have left |
| XPathFacts.StepFromEach | libEGD-master/src/egd/util/external/pugixml/pugixml.cc:9934-9960 | A step behind another expression is made from each of its nodes by itself |
| XPathFacts.FilterPredicate | libEGD-master/src/egd/util/external/pugixml/pugixml.cc:10603-10615 | A predicate of a filter expression counts in document order |
| XPathFacts.ScalarComparison | libEGD-master/src/egd/util/external/pugixml/pugixml.cc:9259-9274 | Two scalars are compared as booleans if one is, else as numbers if one is, else as strings; for order always as numbers |
| XPathFacts.SetOnLeft | libEGD-master/src/egd/util/external/pugixml/pugixml.cc:9293-9337 | A node-set and a scalar: some node of the set compares, as number or string; for equality with a boolean the set counts as one |
| XPathFacts.SetOnRight | libEGD-master/src/egd/util/external/pugixml/pugixml.cc:9293-9337 | The same with the node-set on the right |
| XPathFacts.SetsComparison | libEGD-master/src/egd/util/external/pugixml/pugixml.cc:9276-9291 | Two node-sets: some pair has equal or different strings, or ordered numbers |
| XPathFacts.ConnectiveValues | libEGD-master/src/egd/util/external/pugixml/pugixml.cc:10023-10027 | or and and connect the truth values of their operands |
| XPathFacts.UnionValue | libEGD-master/src/egd/util/external/pugixml/pugixml.cc:10585-10601 | A union has the nodes of both operands and no others |
| XPathFacts.Texts | libEGD-master/src/egd/util/external/pugixml/pugixml.cc:10552-10576 | string() of each type of value; of a node-set, of its first node in document order |
| XPathFacts.Numbers | libEGD-master/src/egd/util/external/pugixml/pugixml.cc:10256-10290 | number() of each type of value, by way of its string for a node-set |
| XPathFacts.CallValues | libEGD-master/src/egd/util/external/pugixml/pugixml.cc:10919-11037 | The function library is called with the context node and with the arguments as boolean, number, string or first node, as each parameter asks |
| XPathFacts.LookupValue | libEGD-master/src/egd/util/external/pugixml/pugixml.cc:10109-10116 | [@name = text] holds if some attribute of the name has the value; by direct lookup if the first has it |
| XPathEval.EvalNodeSet | libEGD-master/src/egd/util/external/pugixml/pugixml.cc:10581-10706 | In every mode and for every document the set returned answers for the full set the expression means: nothing outside it, all of it / non-empty exactly when it is / its first node present; the tag is truthful and no node is repeated |
| XPathEval.EvalFilter | libEGD-master/src/egd/util/external/pugixml/pugixml.cc:10603-10615 | The filter node in every mode, with all three predicate classes, including the choice of first-only evaluation of its operand for a constant-one predicate |
| XPathEval.StepDo | libEGD-master/src/egd/util/external/pugixml/pugixml.cc:9923-9967 | A location step in every mode answers for the union over the start nodes of the filtered axes, although nodes are appended, tags degraded, walks cut short and duplicates removed |
| XPathEval.StepOver | libEGD-master/src/egd/util/external/pugixml/pugixml.cc:9937-9964 | The loop over the start set, with duplicates removed at its end, gathers just what is selected from some start node, all of it as far as the mode needs it; the tag is truthful |
| XPathEval.StepOnto | libEGD-master/src/egd/util/external/pugixml/pugixml.cc:9944-9953 | One start node more: what is gathered and what the tag claims both extend |
| XPathEval.StepFromContext | libEGD-master/src/egd/util/external/pugixml/pugixml.cc:9955-9959 | A step from the context node alone yields its selection in axis order |
| XPathEval.StepFromOne | libEGD-master/src/egd/util/external/pugixml/pugixml.cc:9946-9952 | Filling and filtering touch only the tail of the set, and that tail is the node's filtered selection or, where one node suffices, its first node in document order |
| XPathEval.WalkLosesNothing | libEGD-master/src/egd/util/external/pugixml/pugixml.cc:9929-9932 | Cutting the axis walk at its first node loses nothing that any predicate of the step would have kept, or that the mode asks for |
| XPathEval.EarlyAnswers | libEGD-master/src/egd/util/external/pugixml/pugixml.cc:9343-9346 | Keeping one node of an axis or filter result answers for the whole exactly when eval_once says so |
| XPathEval.UnionAnswers | libEGD-master/src/egd/util/external/pugixml/pugixml.cc:10585-10601 | Appending two answers and removing duplicates answers for the union in the same mode |
| XPathEval.ApplyPredicateEach | libEGD-master/src/egd/util/external/pugixml/pugixml.cc:9419-9469 | In-place compaction of the tail keeps exactly the nodes whose predicate holds at their original position and size, in order, or the first of them |
| XPathEval.ApplyPredicateConstant | libEGD-master/src/egd/util/external/pugixml/pugixml.cc:9471-9497 | Evaluating a constant predicate once and indexing equals evaluating it at each position |
| XPathEval.ConstantKept | libEGD-master/src/egd/util/external/pugixml/pugixml.cc:9471-9497 | A predicate with one numeric value at all positions keeps the node at that position if the number is whole and in range, else nothing |
| XPathEval.ConstantOneKept | libEGD-master/src/egd/util/external/pugixml/pugixml.cc:10737-10738 | The predicate [1] keeps the first node |
| XPathEval.PredicateHolds | libEGD-master/src/egd/util/external/pugixml/pugixml.cc:9419-9469 | A predicate is read as a position when its type is number and as a truth value otherwise |
| XPathEval.ApplyPredicate | libEGD-master/src/egd/util/external/pugixml/pugixml.cc:9499-9511 | All four ways of applying a predicate keep what per-position evaluation keeps |
| XPathEval.ApplyPredicates | libEGD-master/src/egd/util/external/pugixml/pugixml.cc:9513-9521 | A predicate list filters in turn; only the last one may stop at its first hit |
| XPathEval.EvalBoolean | libEGD-master/src/egd/util/external/pugixml/pugixml.cc:10019-10154 | Equals the boolean conversion of the plain value |
| XPathEval.EvalNumber | libEGD-master/src/egd/util/external/pugixml/pugixml.cc:10156-10290 | Equals the number conversion of the plain value, sum() included |
| XPathEval.AddUp | libEGD-master/src/egd/util/external/pugixml/pugixml.cc:10218-10234 | The loop of sum() adds up the numbers of the nodes in the order of the set |
| XPathEval.SumAnyOrder | libEGD-master/src/egd/util/external/pugixml/pugixml.cc:10218-10234 | That sum, with NaN and the infinities, is the same in every order |
| XPathEval.EvalString | libEGD-master/src/egd/util/external/pugixml/pugixml.cc:10341-10579 | Equals the string conversion of the plain value |
| XPathEval.LookupAttribute | libEGD-master/src/egd/util/external/pugixml/pugixml.cc:10109-10116 | True exactly when the node has an attribute of that name that is no namespace declaration and has the value |
| XPathEval.CompareEq | libEGD-master/src/egd/util/external/pugixml/pugixml.cc:9255-9341 | Equality by operand types, with operands exchanged and loops over node-sets, equals the plain comparison |
| XPathEval.CompareScalars | libEGD-master/src/egd/util/external/pugixml/pugixml.cc:9259-9274 | Comparison of two scalars by boolean before number before string |
| XPathEval.CompareEqMixed | libEGD-master/src/egd/util/external/pugixml/pugixml.cc:9293-9337 | Existential comparison of a node-set with a scalar, both ways round |
| XPathEval.CompareRel | libEGD-master/src/egd/util/external/pugixml/pugixml.cc:9348-9417 | Relational comparison, with > and >= done by exchanging operands, equals the plain comparison |
| XPathEval.CompareLess | libEGD-master/src/egd/util/external/pugixml/pugixml.cc:9348-9417 | The < and <= cases, including node-set against node-set |
| XPathEval.CompareLessMixed | libEGD-master/src/egd/util/external/pugixml/pugixml.cc:9378-9411 | A node-set against a scalar compares numbers node by node |
| Axes.StepFill | libEGD-master/src/egd/util/external/pugixml/pugixml.cc:9912-9921 | For every axis, node test and node, the pointer walk appends exactly the axis selection in axis order, or its first node when one suffices; TreeAxes says what the selection is in a tree |
| Axes.AxisSeqMeaning | libEGD-master/src/egd/util/external/pugixml/pugixml.cc:9638-9829 | The list enumerated by a walk is the set that section 2.2 of XPath 1.0 describes, in document or reverse document order; node tests are spelled out in TreeAxes.StepOnTree and AttributeStepOnTree |
| Axes.AncestorMeaning | libEGD-master/src/egd/util/external/pugixml/pugixml.cc:7808-7813 | A node owns another in its preorder interval exactly when the parent chain leads to it |
| Axes.StepFillFromNode | libEGD-master/src/egd/util/external/pugixml/pugixml.cc:9638-9829 | Every axis from a tree node |
| Axes.StepFillFromAttribute | libEGD-master/src/egd/util/external/pugixml/pugixml.cc:9831-9910 | Every axis from an attribute node, whose following axis includes its owner's children |
| Axes.FillAttributes | libEGD-master/src/egd/util/external/pugixml/pugixml.cc:9644-9651 | The attribute axis, stopping at the first match of a name |
| Axes.FillChildren | libEGD-master/src/egd/util/external/pugixml/pugixml.cc:9653-9660 | The child axis |
| Axes.FillSiblings | libEGD-master/src/egd/util/external/pugixml/pugixml.cc:9653-9660 | Walking next_sibling from any node enumerates the matching siblings from there on |
| Axes.FillDescendants | libEGD-master/src/egd/util/external/pugixml/pugixml.cc:9662-9692 | The descendant axis without recursion |
| Axes.FillDescendantsOrSelf | libEGD-master/src/egd/util/external/pugixml/pugixml.cc:9662-9692 | The descendant-or-self axis |
| Axes.Advance | libEGD-master/src/egd/util/external/pugixml/pugixml.cc:9676-9689 | First child, else the nearest ancestor-or-self with a next sibling, is the next node in preorder; null exactly at the end of the walked subtree |
| Axes.WalkPreorder | libEGD-master/src/egd/util/external/pugixml/pugixml.cc:9669-9692 | Repeated advance enumerates a preorder interval |
| Axes.FillFollowingSiblings | libEGD-master/src/egd/util/external/pugixml/pugixml.cc:9694-9701 | The following-sibling axis |
| Axes.FillPrecedingSiblings | libEGD-master/src/egd/util/external/pugixml/pugixml.cc:9703-9710 | The preceding-sibling axis along the circular back pointer, nearest first |
| Axes.FillFollowing | libEGD-master/src/egd/util/external/pugixml/pugixml.cc:9712-9747 | The following axis: everything after the subtree |
| Axes.FillPreceding | libEGD-master/src/egd/util/external/pugixml/pugixml.cc:9749-9789 | The preceding axis in reverse document order, without ancestors |
| Axes.ClimbBack | libEGD-master/src/egd/util/external/pugixml/pugixml.cc:9773-9783 | Climbing back appends just the non-ancestors met, in order |
| Axes.FillAncestors | libEGD-master/src/egd/util/external/pugixml/pugixml.cc:9791-9809 | The ancestor and ancestor-or-self axes, nearest first |
| Axes.FillFollowingAttribute | libEGD-master/src/egd/util/external/pugixml/pugixml.cc:9866-9891 | The following axis of an attribute |
| Axes.FillPrecedingLeaf | libEGD-master/src/egd/util/external/pugixml/pugixml.cc:9763-9787 | Descending to a last leaf and visiting it extends the reverse enumeration by one subtree end |
| Axes.NodeIsAncestor | libEGD-master/src/egd/util/external/pugixml/pugixml.cc:7808-7813 | Climbing parents decides whether a subtree contains a node |
| Axes.NamedAttributeStop | libEGD-master/src/egd/util/external/pugixml/pugixml.cc:9523-9561 | Stopping at the first attribute of a name loses nothing if and only if the element has at most one attribute of that name |
| Axes.RepeatedAttributeLost | libEGD-master/src/egd/util/external/pugixml/pugixml.cc:9523-9561 | A well-formed tree on which the shortcut loses an attribute |
| Axes.NamedAttributeExact | libEGD-master/src/egd/util/external/pugixml/pugixml.cc:9523-9561 | If no element repeats the name, the attribute axis with that name test has at most one node |
| TreeAxes.AxisOnTree | libEGD-master/src/egd/util/external/pugixml/pugixml.cc:9638-9829 | In the document of any tree, with nodes named by their paths from the root: each axis in terms of prefixes and of where two paths branch |
| TreeAxes.StepOnTree | libEGD-master/src/egd/util/external/pugixml/pugixml.cc:9563-9610 | For each of the eight node tests: which nodes of the tree a step selects, by path, kind and name; text() takes PCDATA and CDATA |
| TreeAxes.OnlyTreeNodes | libEGD-master/src/egd/util/external/pugixml/pugixml.cc:9638-9829 | A step from a tree node on another axis than attribute selects nodes of the tree only |
| TreeAxes.StepOrder | libEGD-master/src/egd/util/external/pugixml/pugixml.cc:9638-9829 | ancestor, ancestor-or-self, preceding and preceding-sibling list their nodes in reverse document order, the others in document order |
| TreeAxes.AttributeStepOnTree | libEGD-master/src/egd/util/external/pugixml/pugixml.cc:9523-9561 | For each node test: which attributes of a node a step selects, by name; never a namespace declaration |
| TreeAxes.OnlyAttributes | libEGD-master/src/egd/util/external/pugixml/pugixml.cc:9644-9651 | Attributes of that node only, in their order |
| TreeAxes.StepFromAttribute | libEGD-master/src/egd/util/external/pugixml/pugixml.cc:9831-9910 | Which nodes of the tree a step from an attribute selects: parent and ancestors, and as following what comes after its owner, the kids of the owner included |
| TreeAxes.DocumentOrderOnTree | libEGD-master/src/egd/util/external/pugixml/pugixml.cc:7815-7898 | Section 5 of XPath 1.0: a node before its attributes, these in their order before its kids, and paths in lexicographic order |
| Document.SiblingEnds | libEGD-master/src/egd/util/external/pugixml/pugixml.cc:1087-1107 | Sibling pointers of the preorder encoding: a next sibling starts where a subtree ends, the back pointer inverts it and is circular at the first child |
| Document.FlattenWellFormed | libEGD-master/src/egd/util/external/pugixml/pugixml.cc:1087-1107 | Every finite tree flattens to a well-formed document, so the results cover all trees |
| DocumentOrder.NodeIsBefore | libEGD-master/src/egd/util/external/pugixml/pugixml.cc:7765-7806 | On two distinct nodes of a tree: true exactly when the first comes earlier in preorder |
| DocumentOrder.NodeIsBeforeSibling | libEGD-master/src/egd/util/external/pugixml/pugixml.cc:7741-7763 | The two-ended sibling race decides the order of two siblings |
| DocumentOrder.Raise | libEGD-master/src/egd/util/external/pugixml/pugixml.cc:7783-7793 | Equalising heights reaches the ancestor of the deeper node at the other's depth |
| DocumentOrder.CompareAtSameDepth | libEGD-master/src/egd/util/external/pugixml/pugixml.cc:7798-7805 | Climbing in lock step to siblings decides the order of the nodes below |
| DocumentOrder.Compare | libEGD-master/src/egd/util/external/pugixml/pugixml.cc:7815-7898 | On any two nodes or attributes of a document: document order, attributes after their owner and before its children, by buffer places if both are known; only without places is an attribute reported before itself |
| DocumentOrder.AttributeIsBefore | libEGD-master/src/egd/util/external/pugixml/pugixml.cc:7862-7871 | For attributes of one element the slow path answers k <= other, so it is reflexive |
| Sorting.Sort | libEGD-master/src/egd/util/external/pugixml/pugixml.cc:7282-7310 | For a comparison that is a strict total order on different elements, and calls no element less than itself unless the range has no repeats: terminates with a sorted permutation of the range, nothing outside it touched; recursion depth d > 0 needs 8 * 2^d elements |
| Sorting.SplitAt | libEGD-master/src/egd/util/external/pugixml/pugixml.cc:7287-7293 | One round leaves two strictly shorter parts to sort and everything else in its final order |
| Sorting.NotAllInFront | libEGD-master/src/egd/util/external/pugixml/pugixml.cc:7287-7297 | Even when the pivot compares less than itself the median of three leaves an element behind the front zone, so the loop advances |
| Sorting.Partition | libEGD-master/src/egd/util/external/pugixml/pugixml.cc:7255-7280 | Permutes the range into zones before, equal to and after the pivot at the returned borders; a pivot that compares less than itself goes to the front zone |
| Sorting.FourZones | libEGD-master/src/egd/util/external/pugixml/pugixml.cc:7257-7270 | The scan leaves an equal, a front and a back zone and nothing unclassified |
| Sorting.EqualToMiddle | libEGD-master/src/egd/util/external/pugixml/pugixml.cc:7272-7280 | Swapping the equal zone from the front to the middle |
| Sorting.InsertionSort | libEGD-master/src/egd/util/external/pugixml/pugixml.cc:7224-7244 | Sorted permutation of the range, under the same condition on the comparison |
| Sorting.StillNoRepeats | libEGD-master/src/egd/util/external/pugixml/pugixml.cc:7282-7310 | Rearranging keeps a range free of repeats, so the condition on the comparison holds throughout |
| Sorting.InsertBackwards | libEGD-master/src/egd/util/external/pugixml/pugixml.cc:7231-7242 | The unguarded shift inserts one element into the sorted prefix |
| Sorting.Median3 | libEGD-master/src/egd/util/external/pugixml/pugixml.cc:7246-7253 | The element at the returned position lies between the elements at the other two of the three positions |
| Sorting.Unique | libEGD-master/src/egd/util/external/pugixml/pugixml.cc:7201-7222 | In place: the front becomes the list without consecutive repeats |
| Sorting.CompactSorted | libEGD-master/src/egd/util/external/pugixml/pugixml.cc:7201-7222 | Of a sorted list that is strictly increasing with the same members |
| Sorting.RemoveDuplicates | libEGD-master/src/egd/util/external/pugixml/pugixml.cc:8698-8704 | Sort then unique: the same set, strictly increasing |
| Sorting.StrictlySortedUnique | libEGD-master/src/egd/util/external/pugixml/pugixml.cc:8698-8704 | Two strictly increasing lists with the same members are equal: the result is determined by the set |
| Sorting.Reverse | libEGD-master/src/egd/util/external/pugixml/pugixml.cc:7196-7199 | In-place reversal |
| NodeSets.GetOrder | libEGD-master/src/egd/util/external/pugixml/pugixml.cc:8554-8568 | The detected tag is truthful |
| NodeSets.SortDo | libEGD-master/src/egd/util/external/pugixml/pugixml.cc:8686-8689 | Whatever the tag, the result is in document order with the same nodes |
| NodeSets.SortSet | libEGD-master/src/egd/util/external/pugixml/pugixml.cc:8570-8591 | The same for document order and its reverse |
| NodeSets.SortItems | libEGD-master/src/egd/util/external/pugixml/pugixml.cc:8574-8586 | Sorting distinct nodes with the code's comparison, reflexive on attributes whose place is not known, puts them in document order |
| NodeSets.FirstOf | libEGD-master/src/egd/util/external/pugixml/pugixml.cc:8593-8612 | The document-order first node for each tag, null for the empty set |
| NodeSets.RemoveDuplicateNodes | libEGD-master/src/egd/util/external/pugixml/pugixml.cc:8698-8704 | No repeats, same nodes, for any address order |
| NodeSets.InDocumentOrderUnique | libEGD-master/src/egd/util/external/pugixml/pugixml.cc:8570-8591 | A set has one listing in document order |
| Translate.TranslateInPlace | libEGD-master/src/egd/util/external/pugixml/pugixml.cc:8282-8302 | In place: the text with each character mapped, kept or dropped by its first place in the from map |
| Translate.Generate | libEGD-master/src/egd/util/external/pugixml/pugixml.cc:8304-8334 | A table is made exactly for 7-bit maps, and is the table of the maps |
| Translate.TranslateTableInPlace | libEGD-master/src/egd/util/external/pugixml/pugixml.cc:8336-8364 | In place: the text mapped through the table |
| Translate.TableAgrees | libEGD-master/src/egd/util/external/pugixml/pugixml.cc:8336-8364 | The table gives every text the translation by the two maps |
| Translate.TranslatedParts | libEGD-master/src/egd/util/external/pugixml/pugixml.cc:8282-8302 | Texts are translated piece by piece |
| Translate.TranslatedCharacter | libEGD-master/src/egd/util/external/pugixml/pugixml.cc:8282-8302 | A character outside the first map stays; one that occurs there first at p becomes the character at p of the second map, or goes if there is none |
| ExprParser.ParsesTheGrammar | libEGD-master/src/egd/util/external/pugixml/pugixml.cc:11143-11720 | The parser accepts a token list with a given tree if and only if the tree belongs to the grammar of sections 2 and 3 of XPath 1.0, with location paths, predicates, function calls and all operators, and its text is that list; so no text has two trees; Productions.GrammarIsProductions says what the grammar is |
| Productions.GrammarIsProductions | libEGD-master/src/egd/util/external/pugixml/pugixml.cc:11595-11677 | The grammar has exactly the trees that the productions of section 3 of XPath 1.0 derive: or, and, equality, relational, additive, multiplicative, unary, union, path, each a production naming its operators, left-associative |
| Productions.ParsesProductions | libEGD-master/src/egd/util/external/pugixml/pugixml.cc:11710-11720 | The parser accepts a token list with a given tree if and only if the productions derive that tree and the tokens are its text |
| QueryTexts.AbbreviatedSteps | libEGD-master/src/egd/util/external/pugixml/pugixml.cc:11281-11447 | The nodes that the parser builds for the texts . .. * and @* |
| QueryTexts.NamedSteps | libEGD-master/src/egd/util/external/pugixml/pugixml.cc:11281-11447 | For name, @name and axis::name |
| QueryTexts.PrefixStep | libEGD-master/src/egd/util/external/pugixml/pugixml.cc:11392-11405 | For prefix:*, all names with the prefix and the colon in front |
| QueryTexts.TypeSteps | libEGD-master/src/egd/util/external/pugixml/pugixml.cc:11358-11390 | For a node type with parentheses, and for a processing instruction with its target |
| QueryTexts.RootAlone | libEGD-master/src/egd/util/external/pugixml/pugixml.cc:11475-11503 | For the slash alone |
| QueryTexts.Primaries | libEGD-master/src/egd/util/external/pugixml/pugixml.cc:11143-11244 | For variables, literals and numbers |
| QueryTexts.InParentheses | libEGD-master/src/egd/util/external/pugixml/pugixml.cc:11166-11179 | Parentheses change nothing |
| QueryTexts.CallBuilt | libEGD-master/src/egd/util/external/pugixml/pugixml.cc:11188-11230 | A call with one or two texts as arguments, in their order |
| QueryTexts.PredicateOfStep | libEGD-master/src/egd/util/external/pugixml/pugixml.cc:11424-11444 | A text in brackets behind a step is its predicate |
| QueryTexts.PredicateOfFilter | libEGD-master/src/egd/util/external/pugixml/pugixml.cc:11249-11272 | Behind a text in parentheses it is the predicate of a filter expression |
| QueryTexts.StepBehind | libEGD-master/src/egd/util/external/pugixml/pugixml.cc:11450-11471 | A slash and a name behind a text is a child step from its nodes; with two slashes from all nodes below these |
| QueryTexts.OperatorBetween | libEGD-master/src/egd/util/external/pugixml/pugixml.cc:11647-11677 | An operator between two texts builds its node of theirs, in their order |
| QueryTexts.MinusSign | libEGD-master/src/egd/util/external/pugixml/pugixml.cc:11565-11574 | A minus sign in front of a text builds the negation of its node |
| QueryTexts.NegationNode | libEGD-master/src/egd/util/external/pugixml/pugixml.cc:11565-11574 | That is a function of one number, and none of the arithmetic operators |
| QueryNames.OperatorTokens | libEGD-master/src/egd/util/external/pugixml/pugixml.cc:11595-11644 | The text of each operator |
| QueryNames.OperatorsRead | libEGD-master/src/egd/util/external/pugixml/pugixml.cc:11595-11644 | Every token is an operator only as that text |
| QueryNames.OperatorNodes | libEGD-master/src/egd/util/external/pugixml/pugixml.cc:11595-11644 | The node each operator makes of its operands |
| QueryNames.ArithmeticNodes | libEGD-master/src/egd/util/external/pugixml/pugixml.cc:11595-11644 | The arithmetic operators are different functions of two numbers |
| QueryNames.AxisNames | libEGD-master/src/egd/util/external/pugixml/pugixml.cc:11039-11105 | The thirteen axis names |
| QueryNames.OnlyAxes | libEGD-master/src/egd/util/external/pugixml/pugixml.cc:11039-11105 | There are no others |
| QueryNames.NodeTypes | libEGD-master/src/egd/util/external/pugixml/pugixml.cc:11107-11141 | The four node types |
| QueryNames.OnlyNodeTypes | libEGD-master/src/egd/util/external/pugixml/pugixml.cc:11107-11141 | There are no others |
| QueryNames.SpecialCalls | libEGD-master/src/egd/util/external/pugixml/pugixml.cc:10919-11037 | What last(), position(), count(), sum(), id() and translate() build, or refuse |
| QueryNames.OneArgumentCalls | libEGD-master/src/egd/util/external/pugixml/pugixml.cc:10919-11037 | The functions of one argument, with its type and the type of the result |
| QueryNames.OptionalArgumentCalls | libEGD-master/src/egd/util/external/pugixml/pugixml.cc:10919-11037 | The functions that take the context node if they have no argument |
| QueryNames.MoreArgumentCalls | libEGD-master/src/egd/util/external/pugixml/pugixml.cc:10919-11037 | The functions of two and three arguments |
| QueryNames.ConcatCalls | libEGD-master/src/egd/util/external/pugixml/pugixml.cc:10919-11037 | concat() of two or more strings |
| QueryNames.Callable | libEGD-master/src/egd/util/external/pugixml/pugixml.cc:10919-11037 | A call is accepted if and only if its name is one of these, with as many arguments as it takes and a node-set where it wants one |
| ExprParser.ExprSound | libEGD-master/src/egd/util/external/pugixml/pugixml.cc:11143-11704 | A tree accepted is in the grammar, its text is exactly the consumed tokens, and nothing that belongs to it is left |
| ExprParser.Complete | libEGD-master/src/egd/util/external/pugixml/pugixml.cc:11647-11677 | Every tree of the grammar is read back from its text, whatever legal text follows |
| ExprParser.PathComplete | libEGD-master/src/egd/util/external/pugixml/pugixml.cc:11450-11579 | Every path of the grammar, from the context node, the root or a filter expression, is read back from its text; a name before a parenthesis is a function only if it is no node type, and a step behind the root path belongs to it |
| ExprParser.BodyComplete | libEGD-master/src/egd/util/external/pugixml/pugixml.cc:11281-11447 | Every step of the grammar, abbreviated or with axis, node test and predicates, is read back from its text |
| ExprParser.ArgsComplete | libEGD-master/src/egd/util/external/pugixml/pugixml.cc:11188-11230 | Every argument list of the grammar is read back from its text |
| ExprParser.RecTwice | libEGD-master/src/egd/util/external/pugixml/pugixml.cc:11647-11677 | Parsing with a high limit and then with a lower one is parsing with the lower one |
| ExprParser.TighterIsRec | libEGD-master/src/egd/util/external/pugixml/pugixml.cc:11658-11666 | The inner loop over tighter operators is the recursion with the next limit |
| ExprParser.PathOrUnary | libEGD-master/src/egd/util/external/pugixml/pugixml.cc:11515-11579 | The nodes allocated for a path, filter expression or unary minus are those of the tree the grammar has there; terminates on every token list |
| ExprParser.LocationPath | libEGD-master/src/egd/util/external/pugixml/pugixml.cc:11475-11503 | The same for location paths: the root path alone unless a step follows, and a double slash as a step of its own |
| ExprParser.RelativePath | libEGD-master/src/egd/util/external/pugixml/pugixml.cc:11450-11471 | The loop over slashes applies the specified steps one to another |
| ExprParser.StepFrom | libEGD-master/src/egd/util/external/pugixml/pugixml.cc:11281-11447 | A step as specified, refused on anything but a node-set |
| ExprParser.Predicates | libEGD-master/src/egd/util/external/pugixml/pugixml.cc:11424-11444 | The linked list of predicates, built at its end, is the specified one |
| ExprParser.FilterExpression | libEGD-master/src/egd/util/external/pugixml/pugixml.cc:11249-11272 | The loop over predicates nests the specified filters, refused on anything but a node-set |
| ExprParser.PrimaryExpression | libEGD-master/src/egd/util/external/pugixml/pugixml.cc:11143-11244 | Variable, parenthesis, literal, number or call as specified; unknown variables and functions and wrong arguments are refused |
| ExprParser.Arguments | libEGD-master/src/egd/util/external/pugixml/pugixml.cc:11188-11230 | The loop over arguments and commas collects the specified ones |
| ExprParser.ExpressionRec | libEGD-master/src/egd/util/external/pugixml/pugixml.cc:11647-11677 | The loop computes the nodes of the specified tree, the remaining tokens or the error on every input, including the check that union operands are node-sets |
| ExprParser.Expression | libEGD-master/src/egd/util/external/pugixml/pugixml.cc:11698-11704 | The same for the entry with a limit |
| ExprParser.Query | libEGD-master/src/egd/util/external/pugixml/pugixml.cc:11710-11720 | The same for a whole query: nothing may remain |
| ExprTyping.TreeTyped | libEGD-master/src/egd/util/external/pugixml/pugixml.cc:11143-11704 | What the parser accepts is well typed in every world that has its variables: operands of unions, predicates and steps are node-sets, calls have their parameters |
| ExprTyping.CallTyped | libEGD-master/src/egd/util/external/pugixml/pugixml.cc:10919-11037 | So is every call that parse_function builds |
| Abbreviations.ExpandSame | libEGD-master/src/egd/util/external/pugixml/pugixml.cc:11281-11503 | Section 2.5 of XPath 1.0: a query with its abbreviations spelled out, `//` as descendant-or-self::node(), `.` and `..` as steps, `@` and no axis as axes, is in the grammar too and has the same nodes |
| Dom.AppendNode | libEGD-master/src/egd/util/external/pugixml/pugixml.cc:1208-1226 | The children become old + [child]; every other list, and the description of all lists by next_sibling and the circular prev_sibling_c, is kept |
| Dom.PrependNode | libEGD-master/src/egd/util/external/pugixml/pugixml.cc:1229-1244 | The children become [child] + old, all else kept |
| Dom.InsertNodeAfter | libEGD-master/src/egd/util/external/pugixml/pugixml.cc:1247-1262 | child stands right after node in its parent's list, all else kept |
| Dom.InsertNodeBefore | libEGD-master/src/egd/util/external/pugixml/pugixml.cc:1264-1279 | child stands right before node in its parent's list, all else kept |
| Dom.RemoveNode | libEGD-master/src/egd/util/external/pugixml/pugixml.cc:1281-1298 | node leaves its parent's list and is detached, all else kept |
| Dom.Relinked | libEGD-master/src/egd/util/external/pugixml/pugixml.cc:1208-1298 | Changing the links of one list only leaves every node with one parent and every list described |
| DomMeaning.FieldsOfList | libEGD-master/src/egd/util/external/pugixml/pugixml.cc:1208-1298 | What the four fields of the nodes say: first child, next and circular previous siblings and parents of a list |
| DomMoves.AllowMove | libEGD-master/src/egd/util/external/pugixml/pugixml.cc:4330-4352 | True exactly when the kinds fit, the document is one and the parent is not in the subtree of the child |
| DomMoves.AppendMove | libEGD-master/src/egd/util/external/pugixml/pugixml.cc:5938-5952 | Null and no change exactly when not allowed, the other document included; otherwise moved is the last child. The nodes, of any number of documents, stay linked, acyclic and each in its own document, so moves can follow one another |
| DomMoves.PrependMove | libEGD-master/src/egd/util/external/pugixml/pugixml.cc:5954-5968 | The same for the first child |
| DomMoves.InsertMove | libEGD-master/src/egd/util/external/pugixml/pugixml.cc:5970-6004 | The same before or after a node, which must be a child of the target other than moved |
| DomMoves.MovedAcyclic | libEGD-master/src/egd/util/external/pugixml/pugixml.cc:4330-4352 | Moving a subtree under a node outside it creates no cycle |
| DomMoves.MovedHoused | libEGD-master/src/egd/util/external/pugixml/pugixml.cc:4330-4352 | Moving a node inside its document leaves every node under a node of its own document |
| DomMeaning.MovedTo | libEGD-master/src/egd/util/external/pugixml/pugixml.cc:5938-6004 | Lists in full: the old list of a moved node closes up, the new one has it at the end, at the front, or right before or after the node named, also if both are one list; all others stay |
| DomMeaning.KindsUnder | libEGD-master/src/egd/util/external/pugixml/pugixml.cc:4321-4328 | Which kinds may hang under which |
| DomMeaning.DescentBelow | libEGD-master/src/egd/util/external/pugixml/pugixml.cc:4340-4349 | What can be reached from a node by going down is below it |
| DomMeaning.BelowDescent | libEGD-master/src/egd/util/external/pugixml/pugixml.cc:4340-4349 | And nothing else is: every node below has a descent that leads to it |
| CopyTree.NodeCopyTree | libEGD-master/src/egd/util/external/pugixml/pugixml.cc:4391-4434 | Terminates and leaves at dn the deep copy of the source subtree as it was before, less dn when dn lies inside it; no other node changes |
| DomMeaning.WholeTree | libEGD-master/src/egd/util/external/pugixml/pugixml.cc:4391-4434 | The subtree a copy is compared with: kind, contents, and the subtrees of all kids in order |
| DomMeaning.TreeLeftOut | libEGD-master/src/egd/util/external/pugixml/pugixml.cc:4401-4418 | Where the copy lies inside its source, it is left out of it, with all other kids in their places |
| CopyTree.CopyLoop | libEGD-master/src/egd/util/external/pugixml/pugixml.cc:4398-4433 | The cursor walk copies each source node once and ends with all lists complete |
| CopyTree.NextSource | libEGD-master/src/egd/util/external/pugixml/pugixml.cc:4420-4432 | Going on to the next sibling, or climbing in both trees together, finds the next node to copy or the end |
| CopyTree.NotAmongDone | libEGD-master/src/egd/util/external/pugixml/pugixml.cc:4391-4434 | The node under the cursor has not been copied before |
| CopyTree.CopyIsTree | libEGD-master/src/egd/util/external/pugixml/pugixml.cc:4391-4434 | Complete lists with equal contents are equal subtrees |
| CopyTree.NodeCopyContents | libEGD-master/src/egd/util/external/pugixml/pugixml.cc:4374-4389 | An empty node receives name, value and attributes in order |
| CopyTree.AppendNewNode | libEGD-master/src/egd/util/external/pugixml/pugixml.cc:1375-1385 | A new node of the given kind becomes the last child |
| SharedStrings.CopyContents | libEGD-master/src/egd/util/external/pugixml/pugixml.cc:4374-4389 | Whether strings are shared with the source or copied, the new node and its new attributes read as the source and its attributes did, and every other string reads as before |
| SharedStrings.CopyString | libEGD-master/src/egd/util/external/pugixml/pugixml.cc:4355-4372 | The same for one string: shared only if it is not on the heap, and then both owners are marked |
| SharedStrings.StrcpyInsitu | libEGD-master/src/egd/util/external/pugixml/pugixml.cc:2332-2380 | Storing a string over the old one or in new memory changes no other string, shared or not; no string outgrows its memory, and none is used after it has been given back |
| SharedStrings.Overwrite | libEGD-master/src/egd/util/external/pugixml/pugixml.cc:2348-2355 | A string that is not marked as shared has no second owner, so it can be overwritten |
| Allocator.LiveBlocks | libEGD-master/src/egd/util/external/pugixml/pugixml.cc:485-720 | In every sound state busy minus freed is the total size of the live blocks of a page, and no two live blocks of any pages overlap |
| Allocator.HeaderRecovers | libEGD-master/src/egd/util/external/pugixml/pugixml.cc:614-665 | The two 16-bit fields of a string header give back page offset and size of its block, also for a size stored as zero |
| Allocator.Allocator.constructor | libEGD-master/src/egd/util/external/pugixml/pugixml.cc:6832-6872 | The sentinel page counts as full, although its memory is what the document object sets aside for it; the state is sound |
| Allocator.Allocator.AllocateMemory | libEGD-master/src/egd/util/external/pugixml/pugixml.cc:518-531 | A block on the current page or out of band; adds exactly one live block, keeps the state sound, and disturbs no string; every page is an old one or a new one in the given memory |
| Allocator.Allocator.AllocateOutOfBand | libEGD-master/src/egd/util/external/pugixml/pugixml.cc:684-718 | A small request gets a new top page, a large one its own page below the top; the page becomes known by its address |
| Allocator.Allocator.DeallocateMemory | libEGD-master/src/egd/util/external/pugixml/pugixml.cc:570-612 | Removes exactly one live block; releases a page only with its last live block, and never the top page; no page is new; state stays sound, and all strings but one in that very block stay recoverable |
| Allocator.Allocator.AllocateString | libEGD-master/src/egd/util/external/pugixml/pugixml.cc:614-646 | After any mixture of requests: the string is live at the returned address, which no earlier string has, and all earlier strings stay recoverable; every page is an old one or a new one in the given memory |
| Allocator.Allocator.DeallocateString | libEGD-master/src/egd/util/external/pugixml/pugixml.cc:648-665 | Frees exactly the live block that was allocated for the string, with the same outcome for the pages as giving back memory; the others stay recoverable |
| Allocator.Allocator.Recover | libEGD-master/src/egd/util/external/pugixml/pugixml.cc:653-662 | The header leads to the page and size recorded at allocation |
| Allocator.StringsKept | libEGD-master/src/egd/util/external/pugixml/pugixml.cc:518-531 | Serving any request leaves every string live under its header, and every page known by its address |
| Allocator.StringsLeft | libEGD-master/src/egd/util/external/pugixml/pugixml.cc:570-612 | Giving back a block leaves every string outside it live under its header |
| Allocator.SameAddress | libEGD-master/src/egd/util/external/pugixml/pugixml.cc:485-720 | A live block outside the sentinel is known by its address alone |
| Allocator.SoundHere | libEGD-master/src/egd/util/external/pugixml/pugixml.cc:518-531 | Bumping the busy size keeps soundness |
| Allocator.SoundOnTop | libEGD-master/src/egd/util/external/pugixml/pugixml.cc:693-703 | Pushing a page on top writes back the old top's busy size and keeps soundness |
| Allocator.SoundBelowTop | libEGD-master/src/egd/util/external/pugixml/pugixml.cc:704-717 | Inserting a page below the top keeps soundness |
| Allocator.SoundDeallocated | libEGD-master/src/egd/util/external/pugixml/pugixml.cc:570-612 | Every outcome of a deallocation is sound |
| AllocatorPlaces.ServedPlace | libEGD-master/src/egd/util/external/pugixml/pugixml.cc:518-531 | A request goes to the current page at its busy size if it ends within 32728 bytes; else to the front of a new page, which becomes the top page for requests of up to 8182 bytes and goes below it for larger ones |
| AllocatorPlaces.ReturnedPlace | libEGD-master/src/egd/util/external/pugixml/pugixml.cc:570-612 | A page leaves the list with its last block, but for the top one, which starts again as a blank page; else pages and busy size stay |
| AllocatorPlaces.OneBlockAByte | libEGD-master/src/egd/util/external/pugixml/pugixml.cc:485-720 | Every byte of memory belongs to at most one live block, and lies behind the header of its page inside the memory of that page; offsets and sizes are multiples of eight |
| AllocatorPlaces.HeadersApart | libEGD-master/src/egd/util/external/pugixml/pugixml.cc:485-720 | No live block has a byte of the header of a page |
| AllocatorPlaces.HeaderFields | libEGD-master/src/egd/util/external/pugixml/pugixml.cc:634-641 | Offset and size in units of eight, and no size if that does not fit sixteen bits |
| AllocatorPlaces.StringSizes | libEGD-master/src/egd/util/external/pugixml/pugixml.cc:621-624 | A string takes its length and four bytes, rounded up to a multiple of eight |
| AllocatorRuns.Run | libEGD-master/src/egd/util/external/pugixml/pugixml.cc:485-720 | Any number of nodes and strings taken and given back in any order, each request with memory of its own for a page: what is held at the end is what the requests say, by kind and size; the live blocks are exactly what is held; and when nothing is held, only the sentinel and at most one blank page are left |
| AllocatorRuns.Serve | libEGD-master/src/egd/util/external/pugixml/pugixml.cc:485-720 | One request in any state that a run can reach: the live blocks stay exactly what is held |
| AllocatorRuns.LiveAfterServed | libEGD-master/src/egd/util/external/pugixml/pugixml.cc:518-531 | Serving a request makes one block live and ends no life |
| AllocatorRuns.LiveAfterReturned | libEGD-master/src/egd/util/external/pugixml/pugixml.cc:570-612 | Giving back a block ends its life and no other |
| AllocatorRuns.HeldApart | libEGD-master/src/egd/util/external/pugixml/pugixml.cc:485-720 | Any two things held at the same time lie in separate memory |
| AllocatorRuns.NothingLeft | libEGD-master/src/egd/util/external/pugixml/pugixml.cc:570-612 | When nothing is held, all pages but the sentinel and one blank page have been released |
| HashTable.ProbesVisitAll | libEGD-master/src/egd/util/external/pugixml/pugixml.cc:345-354 | For a power-of-two capacity the triangular probe sequence visits every bucket in capacity steps |
| HashTable.Table.GetItem | libEGD-master/src/egd/util/external/pugixml/pugixml.cc:337-358 | Lands on the key's slot or the free slot that ends its probe sequence; the full-table branch is unreachable |
| HashTable.Table.Find | libEGD-master/src/egd/util/external/pugixml/pugixml.cc:288-297 | The value mapped to the key, null if none |
| HashTable.Table.Insert | libEGD-master/src/egd/util/external/pugixml/pugixml.cc:299-313 | Updates the represented map at the key and nothing else |
| HashTable.Table.Reserve | libEGD-master/src/egd/util/external/pugixml/pugixml.cc:315-321 | Keeps the map, in the old slots or in new ones; sixteen inserts then meet the load condition |
| HashTable.Table.InsertReserved | libEGD-master/src/egd/util/external/pugixml/pugixml.cc:299-321 | Up to sixteen pairs inserted after one reserve update the map pair by pair |
| HashTable.Table.Rehash | libEGD-master/src/egd/util/external/pugixml/pugixml.cc:375-399 | Doubles the capacity and keeps map and count |
| HashTable.Table.CopyInto | libEGD-master/src/egd/util/external/pugixml/pugixml.cc:386-388 | Reinserting every occupied slot builds the same map |
| HashTable.HasFreeSlot | libEGD-master/src/egd/util/external/pugixml/pugixml.cc:299-313 | Fewer keys than slots leave a free slot |
| HashTable.StoreMeans | libEGD-master/src/egd/util/external/pugixml/pugixml.cc:299-313 | Writing the slot where a key lands is a map update |
| Utf.Process8 | libEGD-master/src/egd/util/external/pugixml/pugixml.cc:1596-1661 | The decoding loop with its aligned four-byte block path drives any counter or writer as byte-by-byte decoding does |
| Utf.AsciiBlock | libEGD-master/src/egd/util/external/pugixml/pugixml.cc:1615-1628 | Four ASCII bytes at once are four single steps |
| Utf.Process16 | libEGD-master/src/egd/util/external/pugixml/pugixml.cc:1663-1713 | The same for UTF-16 in either byte order |
| Utf.CounterMeasures | libEGD-master/src/egd/util/external/pugixml/pugixml.cc:1425-1444 | The counting traits return the length of what the writing traits write |
| Utf.WriterEncodes | libEGD-master/src/egd/util/external/pugixml/pugixml.cc:1446-1532 | The writing traits append the encoding of the decoded characters |
| Utf.ConvertUtf16 | libEGD-master/src/egd/util/external/pugixml/pugixml.cc:2151-2174 | The buffer sized by the first pass is filled exactly by the second and NUL-terminated; UtfLayout.Utf8Layout gives the bytes |
| Utf.Utf8RoundTrip | libEGD-master/src/egd/util/external/pugixml/pugixml.cc:1446-1489 | UTF-8 written for any characters the decoder can yield, surrogates and codes beyond Unicode included, decodes to them; the bytes themselves are those of UtfLayout.Utf8Layout |
| Utf.Utf16Decodes | libEGD-master/src/egd/util/external/pugixml/pugixml.cc:1663-1713 | Well-formed UTF-16 decodes to scalar values that encode back to it |
| Utf.Utf16ThroughUtf8 | libEGD-master/src/egd/util/external/pugixml/pugixml.cc:2151-2174 | Well-formed UTF-16 through UTF-8 and back is unchanged |
| UtfLayout.Utf8Layout | libEGD-master/src/egd/util/external/pugixml/pugixml.cc:1451-1488 | Section 3 of RFC 3629, for codes below 2^21: how many bytes, the lead byte, six bits in each further byte, and their sum is the code |
| UtfLayout.Utf8Order | libEGD-master/src/egd/util/external/pugixml/pugixml.cc:1451-1488 | Section 1 of RFC 3629: the lexicographic order of the bytes is the order of the codes |
| UtfLayout.Utf16Layout | libEGD-master/src/egd/util/external/pugixml/pugixml.cc:1505-1532 | Section 2.1 of RFC 2781: the code below 2^16; above, a high surrogate with the upper ten bits and a low one with the lower ten |
| UtfLayout.OneUnit | libEGD-master/src/egd/util/external/pugixml/pugixml.cc:1549-1594 | A UTF-32 unit is the code; a Latin-1 byte is the code, or a question mark from 256 on |
| UtfLayout.Utf8Read | libEGD-master/src/egd/util/external/pugixml/pugixml.cc:1596-1661 | What the head of any bytes is read as, malformed ones included, by bit fields |
| UtfLayout.Utf16Read | libEGD-master/src/egd/util/external/pugixml/pugixml.cc:1663-1713 | The same for units; a surrogate outside a pair is passed over |
| UtfLayout.OtherOrder | libEGD-master/src/egd/util/external/pugixml/pugixml.cc:1663-1713 | The other byte order is the two bytes of each unit exchanged |
| Utf.DecodeSplit | libEGD-master/src/egd/util/external/pugixml/pugixml.cc:3629-3643 | A cut that does not separate a lead byte from its continuation bytes does not change decoding, malformed bytes included |
| Utf.CutBetween | libEGD-master/src/egd/util/external/pugixml/pugixml.cc:3629-3643 | In a text of whole characters a safe cut falls between two characters |
| BufferedWriter.Invisible | libEGD-master/src/egd/util/external/pugixml/pugixml.cc:3669-3881 | Delivered bytes plus the converted buffer are the conversion of everything written |
| BufferedWriter.CharactersDelivered | libEGD-master/src/egd/util/external/pugixml/pugixml.cc:3669-3881 | When whole characters are written, what has been delivered is at all times the conversion of the first so many of them |
| BufferedWriter.ConvertSplit | libEGD-master/src/egd/util/external/pugixml/pugixml.cc:3629-3666 | Conversion distributes over safe cuts |
| BufferedWriter.GetValidLength | libEGD-master/src/egd/util/external/pugixml/pugixml.cc:3629-3643 | The length up to the last lead byte within four, or all of it |
| BufferedWriter.ValidLengthSafe | libEGD-master/src/egd/util/external/pugixml/pugixml.cc:3629-3643 | That length is a safe cut |
| BufferedWriter.ConvertBufferOutput | libEGD-master/src/egd/util/external/pugixml/pugixml.cc:3645-3666 | The chunk converted to the target encoding and byte order, never more than the scratch area holds |
| BufferedWriter.SwapUnits | libEGD-master/src/egd/util/external/pugixml/pugixml.cc:3567-3580 | Every unit byte-swapped in place |
| BufferedWriter.Writer.Deliver | libEGD-master/src/egd/util/external/pugixml/pugixml.cc:3687-3703 | Appends the conversion of a chunk to what was delivered |
| BufferedWriter.Writer.Flush | libEGD-master/src/egd/util/external/pugixml/pugixml.cc:3680-3685 | Everything written has been delivered, converted |
| BufferedWriter.Writer.WriteDirect | libEGD-master/src/egd/util/external/pugixml/pugixml.cc:3705-3742 | Keeps the invariant and adds the data to what is written, through whole chunks |
| BufferedWriter.Writer.WriteChunk | libEGD-master/src/egd/util/external/pugixml/pugixml.cc:3720-3734 | Each chunk is non-empty, fits and ends at a safe cut |
| BufferedWriter.Writer.WriteThrough | libEGD-master/src/egd/util/external/pugixml/pugixml.cc:3711-3718 | Native encoding passes straight through |
| BufferedWriter.Writer.WriteBuffer | libEGD-master/src/egd/util/external/pugixml/pugixml.cc:3744-3757 | Adds the data |
| BufferedWriter.Writer.WriteString | libEGD-master/src/egd/util/external/pugixml/pugixml.cc:3759-3782 | Adds the string up to its NUL although it is copied while its end is sought |
| BufferedWriter.Writer.Write | libEGD-master/src/egd/util/external/pugixml/pugixml.cc:3784-3854 | Adds one to six bytes |
| BufferedWriter.WholeCharactersSafe | libEGD-master/src/egd/util/external/pugixml/pugixml.cc:3669-3881 | Writes of whole characters always meet the cut condition |
| BufferedWriter.WholeCharactersConverted | libEGD-master/src/egd/util/external/pugixml/pugixml.cc:3645-3666 | For whole characters the conversion is the target encoding of the characters |
| UtfLayout.OutputUnit | libEGD-master/src/egd/util/external/pugixml/pugixml.cc:3567-3666 | The output is as long as its units, and unit i of the characters stands at i times the width of a unit, most or least significant byte first as the encoding says |
| GapEditing.MoveDown | libEGD-master/src/egd/util/external/pugixml/pugixml.cc:2394-2399 | memmove to a lower address |
| GapEditing.Gap.Push | libEGD-master/src/egd/util/external/pugixml/pugixml.cc:2390-2406 | Skipping bytes changes neither what has been produced nor what is unread, nor anything in front |
| GapEditing.Gap.Flush | libEGD-master/src/egd/util/external/pugixml/pugixml.cc:2408-2420 | The produced text ends up contiguous, nothing unread is overwritten, and nothing in front |
| AttributeText.StrconvEscape | libEGD-master/src/egd/util/external/pugixml/pugixml.cc:2423-2561 | Resolves one escape in place exactly as the specification on the original text, all named, decimal, hexadecimal and broken forms |
| AttributeText.SuffixEscape | libEGD-master/src/egd/util/external/pugixml/pugixml.cc:2423-2561 | An escape depends only on unread text |
| AttributeText.TextOutputEscaped | libEGD-master/src/egd/util/external/pugixml/pugixml.cc:3883-3922 | Writes the escaped string, keeping the writer's invariant |
| AttributeText.ReferenceExact | libEGD-master/src/egd/util/external/pugixml/pugixml.cc:2429-2486 | A character reference with digits and a semicolon spells its number in UTF-8 if and only if the number is below 2^21 |
| AttributeText.DecimalReference | libEGD-master/src/egd/util/external/pugixml/pugixml.cc:2429-2486 | Every number, written as a decimal reference, is read as its remainder modulo 2^32 |
| AttributeText.ReadAsNul | libEGD-master/src/egd/util/external/pugixml/pugixml.cc:2429-2486 | It is read as a NUL if and only if it is a multiple of 2^32 |
| AttributeText.ReferencesMisread | libEGD-master/src/egd/util/external/pugixml/pugixml.cc:2429-2486 | &#0; is read as a NUL and &#4294967361; as the letter A |
| XmlCharacters.LtRead | libEGD-master/src/egd/util/external/pugixml/pugixml.cc:2423-2561 | &lt; by its codes is read as character 60 |
| XmlCharacters.GtRead | libEGD-master/src/egd/util/external/pugixml/pugixml.cc:2423-2561 | &gt; as character 62 |
| XmlCharacters.AmpRead | libEGD-master/src/egd/util/external/pugixml/pugixml.cc:2423-2561 | &amp; as character 38 |
| XmlCharacters.AposRead | libEGD-master/src/egd/util/external/pugixml/pugixml.cc:2423-2561 | &apos; as character 39 |
| XmlCharacters.QuotRead | libEGD-master/src/egd/util/external/pugixml/pugixml.cc:2423-2561 | &quot; as character 34 |
| XmlCharacters.ReferenceRead | libEGD-master/src/egd/util/external/pugixml/pugixml.cc:2429-2486 | &# and decimal digits, &#x and hexadecimal ones, each with a semicolon, are read as the character of the number modulo 2^32 |
| XmlCharacters.AmpersandAlone | libEGD-master/src/egd/util/external/pugixml/pugixml.cc:2423-2561 | An ampersand in front of any other character stays |
| XmlCharacters.PrintedCharacter | libEGD-master/src/egd/util/external/pugixml/pugixml.cc:3883-3922 | What each character is printed as, in text and in attribute values |
| InPlaceReading.ParseWconv | libEGD-master/src/egd/util/external/pugixml/pugixml.cc:2759-2793 | In-place parsing equals rewriting into a fresh text: the value with white space converted and escapes resolved, NUL, next position, all else untouched; fails exactly when there is no closing quote |
| InPlaceReading.ParseWnorm | libEGD-master/src/egd/util/external/pugixml/pugixml.cc:2707-2757 | The same for normalisation to tokens, with its three gaps; the loop that trims the end stops at the quote in front of an empty value |
| InPlaceReading.ParseEol | libEGD-master/src/egd/util/external/pugixml/pugixml.cc:2795-2825 | The same for ends of lines |
| InPlaceReading.ParseSimple | libEGD-master/src/egd/util/external/pugixml/pugixml.cc:2827-2851 | The same for escapes alone |
| InPlaceReading.StrconvPcdata | libEGD-master/src/egd/util/external/pugixml/pugixml.cc:2634-2683 | The same for text, with the three options; ends at a tag or the end of the input, and never fails |
| InPlaceReading.StrconvComment | libEGD-master/src/egd/util/external/pugixml/pugixml.cc:2576-2602 | The same for comments, also when their last character was replaced by the terminator; fails exactly when there is no end |
| InPlaceReading.StrconvCdata | libEGD-master/src/egd/util/external/pugixml/pugixml.cc:2604-2630 | The same for CDATA sections |
| InPlaceReading.ClearBack | libEGD-master/src/egd/util/external/pugixml/pugixml.cc:2727-2734 | Overwriting trailing white space with NULs leaves the trimmed value and nothing else changed |
| InPlaceReading.SuffixPiece | libEGD-master/src/egd/util/external/pugixml/pugixml.cc:2576-2851 | What stands at a position depends only on unread text |
| TextReading.PrintThenRead | libEGD-master/src/egd/util/external/pugixml/pugixml.cc:2634-2851 | Every NUL-free string, printed and read back: as it was in attribute values, with spaces for tabs if white space is converted, and with ends of lines translated in text |
| TextReading.LineEndsRead | libEGD-master/src/egd/util/external/pugixml/pugixml.cc:2576-2683 | Without escapes a comment, CDATA section, text or attribute value reads as section 2.11 of XML 1.0 says, up to its first end |
| TextReading.LineEndsSame | libEGD-master/src/egd/util/external/pugixml/pugixml.cc:2584-2589 | That changes nothing if and only if there is no carriage return |
| XmlCharacters.LineEndCases | libEGD-master/src/egd/util/external/pugixml/pugixml.cc:2584-2589 | A carriage return, with the line feed behind it, becomes a line feed; any other character stays |
| XmlCharacters.CommentRead | libEGD-master/src/egd/util/external/pugixml/pugixml.cc:2576-2602 | A comment goes to the first --> |
| XmlCharacters.CdataRead | libEGD-master/src/egd/util/external/pugixml/pugixml.cc:2604-2630 | A CDATA section goes to the first ]]> |
| XmlCharacters.TextRead | libEGD-master/src/egd/util/external/pugixml/pugixml.cc:2634-2683 | Text goes to the next < or the end of the input |
| XmlCharacters.ValueRead | libEGD-master/src/egd/util/external/pugixml/pugixml.cc:2759-2851 | An attribute value goes to its quote; without escapes each option changes it as it says: nothing, ends of lines, white space to spaces |
| XmlCharacters.TrimmedIs | libEGD-master/src/egd/util/external/pugixml/pugixml.cc:2651-2652 | Trimming takes away all white space at the end and nothing else |
| TextReading.WnormExact | libEGD-master/src/egd/util/external/pugixml/pugixml.cc:2707-2757 | Section 3.3.3 of XML 1.0 for tokens: the value read is the converted value with its words one space apart, if and only if every reference to white space that is followed by text is one to a space and stands between two characters that are none |
| XmlCharacters.WordsJoined | libEGD-master/src/egd/util/external/pugixml/pugixml.cc:2707-2757 | The words of words one space apart are these words |
| XmlCharacters.WordInFront | libEGD-master/src/egd/util/external/pugixml/pugixml.cc:2707-2757 | A word goes to the next white space |
| XmlCharacters.WhiteInFront | libEGD-master/src/egd/util/external/pugixml/pugixml.cc:2707-2757 | White space in front, tabs and ends of lines included, makes no difference |
| TextReading.RawSpacesApart | libEGD-master/src/egd/util/external/pugixml/pugixml.cc:2707-2757 | Without escapes that is always so |
| TextReading.WnormKeepsWords | libEGD-master/src/egd/util/external/pugixml/pugixml.cc:2707-2757 | Whatever its references, the value has the words of the converted value and does not end in white space |
| TextReading.ReferenceKept | libEGD-master/src/egd/util/external/pugixml/pugixml.cc:2707-2757 | &#32;a keeps its space in front and so is not normalised to tokens |
| Integers.StringToInteger | libEGD-master/src/egd/util/external/pugixml/pugixml.cc:4453-4533 | The exact integer, of any length and in either base, clamped to the range, at 16, 32 and 64 bits; but the lower bound for every negative text if the type is narrower than int and the bound is not zero |
| Integers.PromotionExact | libEGD-master/src/egd/util/external/pugixml/pugixml.cc:4526-4533 | Every text is read right if and only if the type is as wide as int or has no negative values |
| Integers.NarrowMisread | libEGD-master/src/egd/util/external/pugixml/pugixml.cc:4526-4533 | -5 read into 16 bits where int has 32 is the lower bound |
| Integers.ReadMagnitude | libEGD-master/src/egd/util/external/pugixml/pugixml.cc:4453-4520 | Sign, magnitude modulo the word size, and whether it wrapped |
| Integers.DecimalOverflowExact | libEGD-master/src/egd/util/external/pugixml/pugixml.cc:4511-4519 | Digit count, lead digit and top bit detect exactly the values that do not fit the word |
| Integers.HexOverflowExact | libEGD-master/src/egd/util/external/pugixml/pugixml.cc:4489-4491 | Digit count detects exactly the hexadecimal values that do not fit |
| Integers.Accumulate | libEGD-master/src/egd/util/external/pugixml/pugixml.cc:4477-4509 | Modular accumulation is the value modulo the word size |
| Integers.ReadHex | libEGD-master/src/egd/util/external/pugixml/pugixml.cc:4467-4492 | Value modulo word size and exact overflow, leading zeros skipped |
| Integers.ReadDecimal | libEGD-master/src/egd/util/external/pugixml/pugixml.cc:4493-4520 | The same for decimal |
| Integers.GetValueInt | libEGD-master/src/egd/util/external/pugixml/pugixml.cc:4535-4538 | Clamped to the signed range, at the widths for which the code calls it |
| Integers.GetValueUint | libEGD-master/src/egd/util/external/pugixml/pugixml.cc:4540-4543 | Clamped to the unsigned range, at the widths for which the code calls it |
| Integers.IntegerToString | libEGD-master/src/egd/util/external/pugixml/pugixml.cc:4584-4602 | Writes sign and decimal digits backwards and returns where they start |
| Integers.SetValueInt | libEGD-master/src/egd/util/external/pugixml/pugixml.cc:4621-4629 | Prints every signed value, the minimum included |
| Integers.PrintThenRead | libEGD-master/src/egd/util/external/pugixml/pugixml.cc:4584-4602 | Reading a printed value gives it back |
| NumberText.DigitPlaces | libEGD-master/src/egd/util/external/pugixml/pugixml.cc:4477-4509 | Place k of the number, counted from the end, is the digit there, in base ten or sixteen, and nothing lies beyond |
| NumberText.DigitCodes | libEGD-master/src/egd/util/external/pugixml/pugixml.cc:4477-4509 | Digits 0 to 9, A to F and a to f by their codes |
| NumberText.DecimalRead | libEGD-master/src/egd/util/external/pugixml/pugixml.cc:4453-4533 | White space, a sign or none, decimal digits and whatever comes behind them mean the signed number of the digits |
| NumberText.HexRead | libEGD-master/src/egd/util/external/pugixml/pugixml.cc:4453-4533 | The same with 0x or 0X and hexadecimal digits |
| NumberText.NothingRead | libEGD-master/src/egd/util/external/pugixml/pugixml.cc:4453-4533 | Text without a digit where the number should begin means zero |
| NumberText.ClampNearest | libEGD-master/src/egd/util/external/pugixml/pugixml.cc:4526-4533 | Clamping gives the nearest number of the range |
| NumberText.DecimalForm | libEGD-master/src/egd/util/external/pugixml/pugixml.cc:4584-4602 | A number is printed in decimal digits without a leading zero, a negative one with a minus sign in front |
| EgdCodec.EncodeThenDecode | libEGD-master/src/egd/client/json_client.cpp:156-217 | For every layout of disjoint variables and every entry order: decoding what was encoded gives each stored variable the value sent, and zero or false when none was; EgdPage.SentBytes gives the bytes in between |
| EgdCodec.InRangeSurvives | libEGD-master/src/egd/client/json_client.cpp:74-135 | An in-range integer or truth value is reported as sent |
| EgdCodec.PublishSucceeds | libEGD-master/src/egd/client/json_client.cpp:48-137 | Encoding succeeds if and only if every entry that names a variable passes the bounds check and converts |
| EgdCodec.Publish | libEGD-master/src/egd/client/json_client.cpp:48-137 | The loop computes the specified page, or the error that stops it; EgdPage.SentBytes, SentBit and NothingSent say which bytes it has |
| EgdPage.SentBytes | libEGD-master/src/egd/client/json_client.cpp:74-135 | Byte i of a variable for which a value was sent is the number divided by 256 to the i, modulo 256: little-endian, for every type but BOOL |
| EgdPage.SentBit | libEGD-master/src/egd/client/json_client.cpp:74-82 | The byte of a BOOL divided by 2 to its bit offset is odd exactly when true was sent |
| EgdPage.SentExactly | libEGD-master/src/egd/client/json_client.cpp:48-137 | A message is published exactly if each entry is a string, list or object, names no variable, or is a number or truth value that converts, for a variable that ends before the last byte |
| EgdPage.FirstFailure | libEGD-master/src/egd/client/json_client.cpp:48-137 | The first entry that is none of these decides the error, out of bounds before conversion |
| EgdPage.Converts | libEGD-master/src/egd/client/json_client.cpp:74-135 | Numbers convert to every type, truth values to all but the integers of eight bytes and LREAL |
| EgdPage.NothingSent | libEGD-master/src/egd/client/json_client.cpp:48-72 | Bytes and bits of a variable for which nothing was sent are zero |
| EgdCodec.StoreValue | libEGD-master/src/egd/client/json_client.cpp:74-135 | One value written at its byte or or-ed into its bit, all other bytes kept |
| EgdCodec.RefusedExactly | libEGD-master/src/egd/client/json_client.cpp:70-72 | The bounds check keeps every write inside the payload and refuses besides exactly the non-BOOL variables ending with its last byte |
| EgdCodec.LastByteRefused | libEGD-master/src/egd/client/json_client.cpp:70-72 | A BYTE at byte 1399 fits, and a message with a value for it is refused as a whole |
| EgdCodec.PutGet | libEGD-master/src/egd/client/json_client.cpp:74-217 | A value stored and read back in its type |
| EgdCodec.PutOther | libEGD-master/src/egd/client/json_client.cpp:74-217 | A store leaves every variable on disjoint bits as it was |
| EgdCodec.JsonProxyCallback | libEGD-master/src/egd/client/json_client.cpp:150-217 | Each stored variable of the map reported once, in any order; fewer bytes received than the page has are ignored |
| EgdPage.ReportedFromBytes | libEGD-master/src/egd/client/json_client.cpp:150-217 | What is reported of a variable is the sum of its bytes, each times 256 to its place, signed types below zero from half of that range on; of a BOOL whether its bit is set |
| EgdPage.ReadFromBytes | libEGD-master/src/egd/client/json_client.cpp:159-216 | The same for one variable |
| EgdCodec.ReadValue | libEGD-master/src/egd/client/json_client.cpp:159-216 | One variable read as its type says |
| UrlQuery.PrintThenParse | libEGD-master/src/egd/util/external/CxxUrl/url.cpp:809-828 | The query printed for any list with non-empty 7-bit keys parses to the same list; UrlCharacters.PrintedChar gives the text in between |
| UrlQuery.EncodedDecodes | libEGD-master/src/egd/util/external/CxxUrl/url.cpp:436-451 | Encoded text decodes to the original and contains no separator of its place |
| UrlQuery.NoFragmentMark | libEGD-master/src/egd/util/external/CxxUrl/url.cpp:879-894 | A printed query contains no fragment mark |
| UrlQuery.EncodeQueryKey | libEGD-master/src/egd/util/external/CxxUrl/url.cpp:471-495 | The loop writes the specified encoding of a key |
| UrlQuery.EncodeQueryVal | libEGD-master/src/egd/util/external/CxxUrl/url.cpp:498-520 | The loop writes the specified encoding of a value |
| UrlQuery.DecodePlus | libEGD-master/src/egd/util/external/CxxUrl/url.cpp:436-451 | The loop decodes or reports a bad percent sequence, on every text |
| UrlQuery.BuildQuery | libEGD-master/src/egd/util/external/CxxUrl/url.cpp:879-894 | The printed query, or an error exactly when some key is empty |
| UrlQuery.ParseEntry | libEGD-master/src/egd/util/external/CxxUrl/url.cpp:812-826 | One round of the query loop: the entry cut at the first separators, or the error |
| UrlQuery.ParseQuery | libEGD-master/src/egd/util/external/CxxUrl/url.cpp:809-828 | The whole loop, on every text; terminates; UrlCharacters.AcceptedIff says which texts are taken |
| UrlCharacters.AcceptedIff | libEGD-master/src/egd/util/external/CxxUrl/url.cpp:809-828 | Sections 2.1 and 3.4 of RFC 3986, by codes: a text is accepted if and only if each of its characters is a pchar, a slash or a question mark, or a percent sign before two hexadecimal digits |
| UrlCharacters.UnreservedPrinted | libEGD-master/src/egd/util/external/CxxUrl/url.cpp:471-520 | Section 2.3 of RFC 3986: a text of unreserved characters is printed as itself |
| UrlCharacters.PrintedChar | libEGD-master/src/egd/util/external/CxxUrl/url.cpp:471-520 | How each character is printed, in a key and in a value: as itself, as a plus sign, or as a percent sign and two upper-case digits |
| UrlCharacters.DecodedHead | libEGD-master/src/egd/util/external/CxxUrl/url.cpp:436-451 | What each head of a text is decoded to: a plus sign to a space, a percent triple to the character of its two digits, anything else to itself |
| UrlCharacters.EntryParts | libEGD-master/src/egd/util/external/CxxUrl/url.cpp:812-826 | A key goes to the first = & or ;, a value to the next & or ; |

## Left out

- XPathEval.EvalNumber: numbers are reals with NaN and the infinities, so rounding is left out, and with it the dependence of `sum()` on the order of the nodes; arithmetic and library functions are arbitrary functions of their converted arguments.
- XPathEval.EvalString: the string-value of a node and the conversions between numbers and text are arbitrary functions of the world the query runs in.
- XPathOptimizer.OptimizeSound: the pass works on expression values and returns the new one; overwriting `_type`, `_axis`, `_left` and `_right` of a shared node is not captured.
- DocumentOrder.NodeIsBeforeSibling: nodes of different documents, which are ordered by address, are left out.
- NodeSets.SortDo: works on a list of nodes; growth of the underlying block is not captured.
- ExprParser.ParsesTheGrammar: works on tokens; the lexer and the conversion of numerals are not part of this model. Trees keep parentheses, abbreviations and slashes, so that a tree has one text; the parser's nodes do without them. Errors are not told apart.
- DomMoves.AllowMove: a node carries its document's number; the page header it is read from is not modelled.
- CopyTree.NodeCopyTree: strings are values here; that sharing them by reference does not show is proved apart from the tree, in `SharedStrings`. Failed allocations are not captured. The kind of the copy's root is the caller's.
- SharedStrings.StrcpyInsitu: the string stored is a value, so storing a part of a string over itself is not captured.
- AllocatorRuns.Run: the memory named for one page is not named again for another, though a released page's memory could be; `Serve` has no such condition.
- Allocator.Allocator.AllocateMemory: the address that `malloc` returns is a parameter, and the memory it names overlaps no page in use. Failed allocations, compact mode and object markers are left out.
- Allocator.Allocator.DeallocateString: the cast from an address to a page is a lookup in a map from addresses to pages, kept by the allocations.
- HashTable.Table.GetItem: the hash is an arbitrary function, and masking with capacity - 1 is written as a remainder. Tables grow without bound.
- BufferedWriter.Writer.Write: the six overloads are one method on one to six bytes; the buffer holds 2048 bytes.
- BufferedWriter.ConvertBufferOutput: `wchar_t` mode is left out.
- Utf.ConvertUtf16: the input decoders for UTF-32 and Latin-1 are left out.
- InPlaceReading.StrconvPcdata: the options are parameters; choosing among the eight instances by the parse flags is left out.
- Integers.IntegerToString: the copy of the digits into the attribute's storage is left out.
- EgdCodec.Publish: float and double conversions of the JSON library are parameters, a JSON object is a list of entries with a name each, and handing the page to the network is left out. DT, TIME and STRING are not stored by the code either.
- EgdCodec.JsonProxyCallback: the buffer holds the whole 1400-byte page, of which `received` bytes came in; reading variables beyond the buffer is undefined in the code.
- UrlQuery.PrintThenParse: only the query part, 7-bit characters; scheme, authority, path, fragment and IP address normalisation are left out.
- UrlQuery.ParseQuery: the limit of 8000 characters on a URL is left out.
- XML parsing other than attribute values, text, comments and CDATA sections, DOCTYPE skipping, encoding detection, file and stream loading, indentation.
- XPath variable sets, query exceptions, and everything about running out of memory.
- Sockets, polling threads, HTTP requests, clocks and configuration caches of the client.
