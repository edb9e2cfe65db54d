# A verified model of the FreeDCE IDL compiler's hard parts

The IDL compiler in `freedce/idl` reads an interface, builds a graph of type nodes, checks and
rewrites it, and writes C stubs.  This project models the parts of it that keep state, walk cyclic
structures or write code, in the form the compiler gives them (nodes on the heap, flags set in
place, lists grown and consumed), and proves what they promise.

| file | part of the compiler |
|---|---|
| `TypeGraph.dfy`, `TypeNodes.dfy` | walks and cycles in a finite graph; type nodes and the graph they form |
| `SelfPointing.dfy`, `Tags.dfy`, `HeaderNotion.dfy` | the self-pointing analysis; struct and union tags from first use to patching; the definition that the header states |
| `Texts.dfy`, `Interfaces.dfy` | the text of an interface, read without a heap, and the graph it describes; whole interfaces against their texts |
| `Expressions.dfy`, `Operators.dfy`, `Folding.dfy`, `Lowering.dfy` | constant expressions: meaning, the law of each operator, folding in place, lowering of size expressions |
| `Declarators.dfy`, `Lists.dfy` | declarator operations and the types built from them; lists with a cached tail |
| `ClientBinding.dfy` | the code a client stub runs to obtain and give back its binding |
| `Utils.dfy` | what several modules share |
| `Unions.dfy`, `Switching.dfy` | case labels of unions: their checks, the table written into the stub, and the arm picked at either end |
| `Arrays.dfy`, `Codesets.dfy`, `Operations.dfy`, `Ports.dfy`, `Enumerations.dfy` | checks and syntheses whose "no error" result implies a global fact |

`dafny verify dfyconfig.toml` checks the whole project.

## Main results

1. **Self-pointing types.**  `Tags.Parser` models parsing as any sequence of tag uses, definitions,
   typedef copies, pointer and array types and array forms, and keeps the invariant `Parsing` through
   all of them.  `PatchTagReferences` is the theorem about the end of every such run: it reports an
   error exactly if some tag was neither defined nor an opaque context handle, and otherwise every
   node that stands for a tagged struct or union shares its tag's structure and is marked
   self-pointing **if and only if** it can reach a cycle; `sp_types` lists those types, none twice,
   and never a tag beside its original.  `CanCycle` is defined on the graph alone, so the outcome
   does not depend on the order of the list.  `HeaderNotion.CycleIffHeader` compares it with the
   definition in words at `ast.h:168-171`: the analysis marks what reaches a type the header calls
   self-pointing, or a type that contains itself by value.  `Interfaces.Compile` puts it together:
   for every well-formed sequence of parser actions the interface is accepted exactly if its text
   is acceptable (`Texts.AcceptableText` says what that means without any heap), and then all of the
   above holds.  The marks can be told from the text alone: `Texts.TextGraph` is the graph that the
   text describes, over the types in the order in which they are made, and a tagged struct or union,
   or anything it leads to, is marked if and only if it can reach a cycle there.  Every marked type
   that a typedef made is on the list, and so is the array form of every marked pointer that was given
   one.  Termination on cyclic graphs is the `decreases` clause of `FindSelfReference`.
2. **Expressions.**  Folding in place refines a function on trees (`Evaluate`), preserves the value
   of the tree whether or not it succeeds (`FoldPreservesMeaning`), succeeds exactly on trees
   without unresolved names and stars (`FoldSucceeds`), loses and doubles no error
   (`ErrorsConserved`), and frees every node it drops exactly once.  The laws of the operators, in
   `Operators`, say what folding leaves by divisibility, order, truth and bits.
   Lowering keeps the value **except** for the mask 7 (`LoweringKeepsValue`), with the run-time
   library's own definition of the opcodes.
3. **Binding code.**  The emitted statements are a small language with an interpreter; `ContextRun`,
   `ImplicitRun` and `UserRun` say what every run of them does, and `StubBalanced` when copies and
   frees balance.
4. **Unions.**  `Switching.NarrowUnion` joins the compiler's checks to the run-time library: for every
   accepted union whose discriminator and labels fit 16 bits, the binary search at the receiving end
   picks an arm exactly if it has the value for a label.  `EveryLabelFound`, `SelectableIff`, `SendableIff`
   and `EndsAgree` say exactly what is lost beyond that.
5. **Declarators, lists and checks.**  See the table.

## Where the code does not do what its comments or names say

Each of these is kept as the code has it, with the exact condition proved.

- Typedef copies of a tag node keep its def-as-tag flag, although the comment at
  `astp_com.c:1254` says the bit is made clear.  The analysis stays exact (`Tags.Parser.Typedef`).
- The alignment mask 7 is lowered to the opcode for 4 (`astp_com.c:2094-2095`).  The values agree
  exactly when the size modulo 8 is 0 or at least 5 (`Lowering.Align4For8`, `EightBecomesFour`).
- The simplicity test takes an integer value of operands that did not fold
  (`astp_exp.c:108-119,140-148`); `Lowering.UndefinedWhen` gives the exact set of expressions,
  `QuotientOfNames` the shortest.
- The overflow test for `*` never fires when `long` has 64 bits (`Expressions.OverflowNeverReported`).
- With an implicit handle the stub frees its handle even if the copy did not succeed, and with a user's
  handle it unbinds or releases it even if the bind or conversion routine raised; in both cases the
  handle was never assigned (`ClientBinding.ImplicitRun`, `UserRun`, `StubBalanced`).
- An [in,out] context handle whose type points to neither void nor a pointer is looked at one level
  too deep (`ClientBinding.MisreadPossible`).  `f([in,out] struct foo *h)` is one, after
  `typedef struct foo foo_t; typedef [context_handle] struct foo *foo_h;`: the first typedef names the
  tag's node (`Tags.Parser.Typedef`), so that the anonymous-type check of `checker.c:1907-1908` passes over it, and
  `checker.c:2551-2574` lets an opaque structure be a context handle (`OpaqueHandleMisread`).
- For an implicit user handle the declarations go by the kind of the *previous* operation
  (`clihamts.c:205-207`): they are right exactly unless that kind was [represent_as]
  (`ClientBinding.HandleInfo.SetupClientHandle`).
- The synthesis of has_ins is wrong for a leading handle_t that is not [in] beside exactly one [in]
  parameter (`Operations.InsExact`, `InputLost`).  The checker refuses the whole family, so has_ins is
  right for every operation that passes and is not [local] (`FamilyRefused`, `FinishAndCheck`); [local] has
  the same bit as has_ins.
- The label check compares a case label with the kind of the discriminator and not with its width, labels
  are kept as signed `int` and `char`, and the library compares 16 bits (`interpsh.c:1154-1155,1223`).
  A label that passes is picked for some value exactly if the discriminator has a value with the label's
  last 16 bits (`Switching.SelectableIff`; `EitherSide`, `ArmOutOfReach` are inputs on both sides).
- Labels above 16 bits can disturb each other: `case 1` and `case 65536` leave the table out of order, so that
  the second arm is never picked (`Switching.LabelLost`), and `case 1` and `case 65537` share one arm
  (`LabelsShared`).  Every label is found in its place exactly if cutting to 16 bits keeps the order
  (`EveryLabelFound`).
- The sender of an encapsulated union does not cut the value (`ndrmi3.c:454`), so the two ends agree exactly
  for values below 65536, read without a sign, and for those that pick no arm (`Switching.EndsAgree`);
  a negative label can be received and not sent (`NegativeNotSent`).
- An enumerator given the value 0 counts as one without a value (`Enumerations.NumberingExact`).
- The size of an array dimension is computed as an `int`; where one overflows, the array is large, and
  that is seen exactly if the dimensions before it are large or something later exceeds 65535
  (`Arrays.OverflowMissed`); an array of one dimension is judged rightly exactly if its size fits
  (`OneDimension`).
- A typedef of a [cs_char] type is flagged as containing it but passes nothing up to a pointer to it
  (`propagat.c:2065-2070`), and the order check looks at the pointer.  So the tag may come after data that
  is reached through such a pointer, and only then (`Codesets.TagBeforeData`, `TagAfterSynonym`).
- A port with an opening and no closing bracket becomes, whole, its own protocol, with no endpoint
  (`Ports.Interface.Split`); `PrintableSpecifications` says which specifications read as they should.
- The parts of a port are copied into buffers of 256 characters without a test; which specifications pass the
  end of which buffer is `Ports.ProtocolOverrun` and `EndpointOverrun`, the shortest `ShortestOverruns`.

## Model

| member | source | states |
|---|---|---|
| TypeGraph.CanCycleIffTrapped | freedce/idl/astp_cpx.c:1371-1372 | What the marks mean: a vertex of a finite graph can reach a cycle exactly if it lies in a set in which every vertex has a successor again in the set, that is, if it can be followed for ever. |
| TypeGraph.SharedSuccessors | freedce/idl/astp_cpx.c:1464-1481 | Nodes that share their structure agree on whether they can reach a cycle, so a tag, its original and its copies are one type to the analysis. |
| TypeGraph.DrawnCycles | freedce/idl/astp_cpx.c:1371-1372 | A drawing whose edges are edges of the graph, or stand for paths without branches, can cycle from a vertex exactly if the graph can: in both directions, for every closed graph. |
| TypeGraph.DrawnReaches | freedce/idl/astp_cpx.c:1414-1522 | A walk in the drawing is a walk in the graph. |
| SelfPointing.Interface.ProcessSpType | freedce/idl/astp_cpx.c:1543-1617 | Sets flags and the list in place so that the marks become `Processed` of the old marks; what that is worth is `ProcessedKeeps` and `Tags.Parser.AllListed`. |
| SelfPointing.Interface.EnterInList | freedce/idl/astp_cpx.c:1578-1617 | A defined tag is entered through its original, both flagged; an anonymous pointer is not entered. |
| SelfPointing.ProcessedKeeps | freedce/idl/astp_cpx.c:1543-1617 | Processing a type that can reach a cycle keeps the invariant of the whole analysis: marks are sound, an original is flagged only if its tag is, the list has flagged types, none twice, and no tag that has an original.  It only adds marks; a newly marked type that is no pointer is flagged, and what is newly flagged is listed; a newly marked pointer is listed if it has a name, and the array form of its pointee, if there is one, is marked and listed. |
| SelfPointing.ArrayRepCycles | freedce/idl/astp_cpx.c:1558-1572 | If a pointer can reach a cycle, so can the array form of its pointee, so marking that form is sound. |
| SelfPointing.Interface.CheckChain | freedce/idl/astp_cpx.c:1353-1400 | Found exactly if the type is marked or on the chain; then it and the whole chain are marked and the invariant is kept; if not, nothing changes. |
| SelfPointing.MarkedChain | freedce/idl/astp_cpx.c:1377-1397 | When the walk meets a type on its chain, or a marked one, every type on the chain can reach a cycle, and processing the chain from its head keeps the invariant. |
| SelfPointing.WholeAfterChain | freedce/idl/astp_cpx.c:1377-1397 | Processing the chain misses nothing: whatever a marked type leads to next is marked if it can reach a cycle, or its structure is still being walked. |
| SelfPointing.TagsStayAbove | freedce/idl/astp_cpx.c:1464-1481 | Linking a node and its tag onto the chain keeps every original below its tag, so the tag is always marked first. |
| SelfPointing.Descend | freedce/idl/astp_cpx.c:1414-1522 | A step to a child keeps that every type on the chain, tag links included, reaches the current type. |
| SelfPointing.LinkShrinks | freedce/idl/astp_cpx.c:1414-1522 | Each step takes a node off the finite set of those not on the chain, although a tag can be on it twice: the walk terminates on every graph. |
| SelfPointing.Interface.FindSelfReference | freedce/idl/astp_cpx.c:1414-1522 | From any sound marks the walk terminates, keeps the invariant, and marks the type and its whole chain if the type can reach a cycle. |
| SelfPointing.Interface.CheckMembers | freedce/idl/astp_cpx.c:1483-1517 | The same for the loop over fields or arms, empty arms passed over. |
| Tags.Parser.SaveTagRef | freedce/idl/astp_com.c:2528-2567 | A struct or union node is appended to the list and marked incomplete; other kinds are ignored. |
| Tags.Parser.TypeFromTag | freedce/idl/astp_cpx.c:1096-1168 | Keeps the parsing invariant; returns the node bound to the tag, making and listing it at its first use; an error exactly if the tag is of the other kind. |
| Tags.Parser.Define | freedce/idl/astp_cpx.c:359-507 | Keeps the parsing invariant; an error exactly if the tag is of the other kind or already defined; otherwise the tag is bound, has the new node for its original and shares its structure. |
| Tags.Parser.CompleteTag | freedce/idl/astp_cpx.c:484-500 | The tag takes the structure, points to its original, and the array form of pointers to it becomes an array of the original. |
| Tags.Parser.Typedef | freedce/idl/astp_com.c:669-676 | A simple declarator.  Keeps the parsing invariant; the tag of the type is named if it had no name; an anonymous type is named in place, any other copied (`astp_com.c:1210-1266`), def-as-tag and context flags included, sharing target, structure and tag; a copy of an incomplete struct or union is listed. |
| Tags.Parser.TypedefWith | freedce/idl/astp_com.c:1267-1377 | A declarator with pointers and arrays.  Keeps the parsing invariant; the nodes made are of the operations' kinds, each over the one before; the last takes the tag, tag name and incompleteness of the base type, and nothing is listed. |
| Tags.KindsLaw | freedce/idl/astp_com.c:1267-1377 | So many stars make so many pointers and an array makes one, and what a later operation makes is further out. |
| Tags.Parser.TakeTag | freedce/idl/astp_com.c:1364-1371 | A pointer or array takes another type's tag without being listed, and the parsing invariant stays. |
| Tags.Parser.SetContextHandle | freedce/idl/astp_com.c:770-778 | Sets the attribute on the type and on its tag, and on nothing else. |
| Tags.Parser.RefsAreTags | freedce/idl/astp_com.c:2528-2567 | The tags that the list refers to are exactly the tags that are bound. |
| Tags.Parser.SetArrayRep | freedce/idl/astp_com.c:1609-1690 | Keeps the parsing invariant; the pointee of a pointer gets an array form if it has none. |
| Tags.Parser.TagFirst | freedce/idl/astp_cpx.c:1211-1276 | A tag comes before everything that refers to it in the list, so whoever else is patched finds the tag complete. |
| Tags.Parser.PatchReference | freedce/idl/astp_cpx.c:1214-1276 | One reference: the structure of its tag and no longer incomplete; an empty structure for an undefined opaque tag; an error otherwise, or if the kinds differ. |
| Tags.Parser.PatchReferences | freedce/idl/astp_cpx.c:1211-1276 | No error after the loop exactly if there was none before and every tag referred to was defined or is opaque; then every reference is patched. |
| Tags.Parser.PatchedIsResolved | freedce/idl/astp_cpx.c:1245-1268 | What parsing and patching leave is what the analysis needs: tags, originals and copies are names of one structure. |
| Tags.Parser.WalkFromTags | freedce/idl/astp_cpx.c:1289-1299 | After the first pass every tag in the list that can reach a cycle is marked, and the invariant is kept. |
| Tags.Parser.WalkFromUser | freedce/idl/astp_cpx.c:1309-1325 | A type that is no tag is marked if it can reach a cycle, and marking it because its tag is marked is sound and lists it once. |
| Tags.Parser.WalkFromUsers | freedce/idl/astp_cpx.c:1305-1331 | The second pass consumes the list and marks every other type in it that can reach a cycle. |
| Tags.Parser.FindSelfPointers | freedce/idl/astp_cpx.c:1283-1332 | From sound marks, after both passes every type on the list is marked if and only if it can reach a cycle. |
| Tags.ReachedIsMarked | freedce/idl/astp_cpx.c:1283-1332 | When no walk is under way, whatever can be reached from a marked type, at any distance, is marked if it can reach a cycle. |
| Tags.Parser.ReachedExactly | freedce/idl/astp_cpx.c:1283-1332 | So whatever a tag user reaches, pointers and arrays included, is marked if and only if it can reach a cycle. |
| Tags.Parser.AllListed | freedce/idl/astp_cpx.c:1573-1617 | Starting from no marks, every marked type but an anonymous pointer is on the list, a tag through its original, and the array form of a marked pointer's pointee is marked and on the list. |
| Tags.Parser.PatchTagReferences | freedce/idl/astp_cpx.c:1195-1335 | For every run of the parser: errors exactly if some tag cannot be resolved; otherwise every reference shares its tag's structure and is complete but for an opaque tag itself; every tag user, and whatever it reaches, is marked if and only if it can reach a cycle; sp_types has every marked type but anonymous pointers (a tag through its original), the array forms that belong to marked pointers, no duplicates and no tag that has an original. |
| HeaderNotion.HeaderImpliesCycle | freedce/idl/ast.h:168-171 | Every T with (T,T) in the transitive closure of "contains a pointer to" can reach a cycle, so it is marked. |
| HeaderNotion.CycleIffHeader | freedce/idl/ast.h:168-171 | A type can reach a cycle exactly if it is, or leads to, a type that is self-pointing in the header's sense or that contains itself by value. |
| HeaderNotion.MarksAgainstHeader | freedce/idl/ast.h:168-171 | After a run of the analysis without errors every tag user that is self-pointing in the header's sense is marked, and what else is marked is exactly what leads to such a type or to one that contains itself. |
| HeaderNotion.ContainerMarked | freedce/idl/astp_cpx.c:1371-1372 | A struct that merely contains a self-pointing one is marked although the header's definition excludes it. |
| Interfaces.Act | freedce/idl/astp_cpx.c:1096-1168 | Each parser action (tag use, definition, typedef with a simple or a complex declarator, pointer or array, array form, context handle, leaf) does to the heap what its text says: of tags and types (`Effect`), and of what each type leads to, which have names and which pointers an array form (`Draw`). |
| Texts.TextRules | freedce/idl/astp_cpx.c:359-507 | Read without a heap, a text has no clash exactly if any two mentions of a tag agree in kind and at most one defines it; its summary then tells which tags are mentioned, defined and marked. |
| Texts.AcceptableText | freedce/idl/astp_cpx.c:1211-1276 | A text is acceptable exactly if its mentions agree and every tag mentioned is defined somewhere, before or after its uses, or is a struct and marked as a context handle somewhere. |
| Texts.OpaqueHandleAccepted | freedce/idl/checker.c:5722-5731 | `typedef [context_handle] struct foo *foo_h;` with foo never defined is acceptable: the attribute reaches the tag through the pointer; without it the text is not acceptable. |
| Texts.TextEdges | freedce/idl/astp_cpx.c:359-507 | The graph of a consistent text: a pointer, array or complex typedef leads to the type it is made from, a simple typedef to what its base leads to, a definition to the types of its members, a use of a tag to those of the tag's one definition, wherever in the text that is, and a leaf to nothing. |
| Texts.TypesLaw | freedce/idl/astp_cpx.c:1483-1517 | The members that count are those with a type, in their order; empty arms are passed over. |
| Texts.ListNode | freedce/idl/astp_cpx.c:1414-1522 | `struct s { struct s *next; }` is acceptable, and in its text the struct and the pointer can reach a cycle. |
| Interfaces.TextDrawn | freedce/idl/astp_cpx.c:1195-1276 | After patching, the nodes made are a drawing of the text's graph: each leads to the nodes of the types that the text says, through unbranched pointers and arrays where a declarator made several nodes. |
| Interfaces.MarksOfText | freedce/idl/astp_cpx.c:1283-1332 | The node of a tagged struct or union, and of whatever it leads to, is marked if and only if its type can reach a cycle in the text's graph; and nothing is marked that cannot. |
| Interfaces.ListOfText | freedce/idl/astp_cpx.c:1573-1617 | Every type that a typedef made has a name and is on the list if it is marked; every pointer that was given an array form has one, and if the pointer is marked, so is the form, and it is on the list. |
| Interfaces.Compile | freedce/idl/astp_cpx.c:1195-1335 | For every sequence of actions that follows the grammar: no error is reported exactly if the text is acceptable.  Then the nodes made are of the kinds and tags that the text says; tagged structs and unions, and whatever they lead to, are marked if and only if they can reach a cycle in the text's graph; typedefs and array forms that are marked are on the list; all references to a tag share its structure, and the marks include the header's notion. |
| Expressions.FoldPreservesMeaning | freedce/idl/astp_exp.c:199-349 | Whether folding succeeds or stops half way, the tree it leaves has the same value under every binding of names and memory; operators are exact results wrapped to 32 bits, division by zero is 0. |
| Expressions.FoldSucceeds | freedce/idl/astp_exp.c:210-265 | Folding returns true exactly on trees without unresolved name or unary star; then the constant is the tree's value, and the errors count the divisions by zero. |
| Expressions.FoldTwice | freedce/idl/astp_exp.c:157-160 | Folding again, as taking an integer value does, changes nothing and reports nothing more. |
| Expressions.ErrorsConserved | freedce/idl/astp_exp.c:199-349 | Whether or not folding succeeds: the divisions by zero reported, and those still in the tree that is left, are together all there were. |
| Expressions.OverflowNeverReported | freedce/idl/astp_exp.c:282-289 | The overflow test of `*` is false for every pair of ints. |
| Expressions.OverflowUnreported | freedce/idl/astp_exp.c:282-289 | 65536 * 65536 folds to 0 and no error is reported. |
| Operators.ArithmeticLaw | freedce/idl/astp_exp.c:282-295 | Folding a sum, difference or product of literals leaves the literal that an `int` keeps of the exact result, and reports nothing. |
| Operators.SignLaw | freedce/idl/astp_exp.c:258-263 | Likewise for unary plus and minus. |
| Operators.DivisionLaw | freedce/idl/astp_exp.c:266-281 | For a nonzero divisor the quotient q and the remainder r of a and b satisfy a = q * b + r, r is smaller than b in magnitude and 0 or of the sign of a, but for the one quotient that is no `int`, which wraps. |
| Operators.ZeroDivisorLaw | freedce/idl/astp_exp.c:266-281 | A zero divisor leaves 0 and is reported once. |
| Operators.ShiftLaw | freedce/idl/astp_exp.c:296-301 | For amounts from 0 to 63: left, what an `int` keeps of a * 2^b; right, the r with r * 2^b <= a < (r + 1) * 2^b. |
| Operators.ComparisonLaw | freedce/idl/astp_exp.c:302-319 | Each comparison leaves 1 if its relation holds and 0 if not. |
| Operators.TruthLaw | freedce/idl/astp_exp.c:329-334 | Logical and, or and not leave 1 or 0 by the truth of their operands. |
| Operators.BitLaw | freedce/idl/astp_exp.c:320-328 | The bitwise operators are right at every bit of the two's complement. |
| Operators.ComplementLaw | freedce/idl/astp_exp.c:255-257 | Every bit of the complement is the other one. |
| Operators.OperandsLaw | freedce/idl/astp_exp.c:218-238 | Operands that fold leave the result of their values, and their errors add up. |
| Operators.NameLaw | freedce/idl/astp_exp.c:210-223 | A name folds to the number of its constant: an integer, a character's code, 1 or 0 for a truth value, 0 for other kinds; without a constant it does not fold. |
| Folding.Evaluator.FreeExp | freedce/idl/astp_exp.c:182-191 | Frees every node of the tree exactly once. |
| Folding.Evaluator.Evaluate | freedce/idl/astp_exp.c:199-349 | The nodes come to hold the folded tree, with its verdict and errors; exactly the nodes no longer in the tree have been freed, each once; on success only the root is left and it is a constant. |
| Folding.Evaluator.EvaluateBinary | freedce/idl/astp_exp.c:228-238 | The same for a binary operator: left operand first, the right one only if the left became constant. |
| Folding.Evaluator.FinishBinary | freedce/idl/astp_exp.c:266-347 | The result is stored, both operands are freed once, and a zero divisor is reported. |
| Lowering.IsSimple | freedce/idl/astp_exp.c:99-155 | The verdict and the tree left behind are those of `Judge`; what is dropped on the way is freed once. |
| Lowering.JudgeAccepts | freedce/idl/astp_exp.c:99-155 | A tree is judged simple if and only if what judging leaves has one of the accepted shapes, and what is left is worth what the tree was. |
| Lowering.UndefinedWhen | freedce/idl/astp_exp.c:104-152 | The test takes the value of a tree that has none exactly for the operators and operands described by `TakesNoValue`. |
| Lowering.QuotientOfNames | freedce/idl/astp_exp.c:107-114 | `a / b` with two unresolved names is such an expression. |
| Lowering.LowerExpression | freedce/idl/astp_com.c:2058-2128 | Pointer count, opcode and name, or the rejection, are those of `Lower`. |
| Lowering.StarredName | freedce/idl/astp_com.c:2058-2128 | A name without a constant, behind any number of stars, is lowered to that name and that number of pointers. |
| Lowering.ArithmeticForms | freedce/idl/astp_exp.c:107-122 | Of a binary operator between such a name and a literal just `n * 2`, `n / 2`, `n + 1` and `n - 1` are lowered, each to its opcode; every other one is rejected. |
| Lowering.AlignForms | freedce/idl/astp_exp.c:131-152 | Of `(x + m) & ~w` just the masks 1, 3 and 7, equal on both sides, are lowered, for a name or what it points to. |
| Lowering.OtherForms | freedce/idl/astp_com.c:2104-2128 | Literals and unary operators on names are rejected. |
| Lowering.LoweringKeepsValue | freedce/idl/astp_com.c:2058-2128 | For every expression the parser can make that is lowered to a name, and every run, the lowered form is worth what the expression is, if and only if it does not ask for a multiple of 8 or the size modulo 8 is 0 or at least 5. |
| Lowering.AlignRoundsUp | freedce/idllib/interpsh.c:255-263 | The align opcodes give the least multiple of 2, 4 or 8 that is not below the size. |
| Lowering.Align4For8 | freedce/idllib/interpsh.c:258-263 | Aligning to 4 and to 8 agree exactly when the size modulo 8 is 0 or at least 5, wrapped sums included. |
| Lowering.EightBecomesFour | freedce/idl/astp_com.c:2094-2096 | `(n + 7) & ~7` with n = 1 is worth 8, its lowered form 4. |
| ClientBinding.HandleInfo.SetupClientHandle | freedce/idl/clihamts.c:90-224 | The kind of handle chosen, the dereference markers, and exactly which variables are declared: those used later, unless the block last served [represent_as] and the interface has an implicit user handle. |
| ClientBinding.KindRules | freedce/idl/clihamts.c:110-224 | The order of precedence: a first parameter of a [handle] type, of handle_t with [represent_as] or of handle_t, each by value or behind a pointer, comes before a context handle, and that before the interface's handle. |
| ClientBinding.StubFile.SpellContext | freedce/idl/clihamts.c:369-439 | The loops over the parameters write exactly `ContextCode`: the first [in]-only handle's block, or a block for each [in,out] handle and the label. |
| ClientBinding.StubFile.SpellCallStart | freedce/idl/clihamts.c:332-491 | Appends exactly the prologue of the handle kind, the callout and the call start. |
| ClientBinding.InOutRun | freedce/idl/clihamts.c:404-433 | Every run of the [in,out] blocks copies the first handle that is not null and jumps over the rest. |
| ClientBinding.ContextRun | freedce/idl/clihamts.c:369-439 | For every operation with a context handle, every choice of null handles and however the copy, the callout and the start end (normally, with a bad status, by raising), said of the parameters' attributes alone: the first parameter that is a context handle, [in] and not [out] decides, null or not; if there is none, the first that is [in,out] and not null; the call starts on one copy of that handle, which is freed; if there is no such handle the exception is raised and nothing is held. |
| ClientBinding.ImplicitRun | freedce/idl/clihamts.c:229-246 | Every run with the implicit handle: copied once, called on and freed; freed unassigned if the copy does not succeed. |
| ClientBinding.UserRun | freedce/idl/cstubmts.c:375-400 | Every run with a handle parameter, a [handle] type, by parameter or implicit, or [represent_as]: what is bound or converted is unbound or released however the call ends; if binding or conversion raises, a handle that was never assigned is. |
| ClientBinding.StubBalanced | freedce/idl/clihamts.c:582-605 | What is freed, unbound or released is what was copied, bound or converted, one to one, if and only if it is not an implicit handle whose copy did not succeed and no bind or conversion raised. |
| ClientBinding.MisreadPossible | freedce/idl/clihamts.c:413-415 | Some run looks for a context handle at the wrong level exactly if no context handle is [in] and not [out], and some that is [in] and [out] points to neither void nor a pointer. |
| ClientBinding.OpaqueHandleMisread | freedce/idl/clihamts.c:413-424 | With the one parameter `[in,out] struct foo *h`, foo the tag of an opaque handle, every run does. |
| Lists.ConcatElement | freedce/idl/astp_com.c:401-454 | For all disjoint well-formed lists the result is the concatenation, the head's cached tail is right, and no other node's `last` is touched. |
| Lists.LastField | freedce/idl/checker.h:63-65 | The last element is found from the head alone. |
| Lists.Build | freedce/idl/astp_com.c:401-454 | A list built by appending one element at a time holds the elements in order. |
| Declarators.Declarator.Operation | freedce/idl/astp_sim.c:314-374 | The list becomes `Pushed`: a new head, or an array dimension merged into the head; `lastOp` stays the tail and the other nodes stay in place. |
| Declarators.Declarator.Unlink | freedce/idl/astp_sim.c:1473-1495 | Takes exactly the last operation off and keeps the rest in order. |
| Declarators.Declarator.PropagateType | freedce/idl/astp_com.c:1399-1530 | The type built by the loop is the fold of the operations from the head, which `BuiltLevels` describes level by level. |
| Declarators.PushedBuilds | freedce/idl/astp_sim.c:314-374 | A push puts its constructor next to the base type whether or not it is merged. |
| Declarators.BuiltIsDenoted | freedce/idl/astp_com.c:1399-1530 | For every sequence of pushes the type built from the merged list is the nested type the pushes denote, with merged indices in row-major order. |
| Declarators.DenotedLevels | freedce/idl/astp_com.c:1440-1520 | Every list of pushes, level by level: exactly n pointers for n stars, an array with exactly the operation's indices, or a function, around what the later pushes denote. |
| Declarators.BuiltLevels | freedce/idl/astp_com.c:1440-1520 | The same of what is built from a list: its last operation is around what the others build. |
| Declarators.UnmergedLevels | freedce/idl/astp_sim.c:344-360 | Taking arrays apart gives one array for each dimension, the first outermost, around the element type, and changes nothing else. |
| Declarators.MergedInOrder | freedce/idl/astp_sim.c:344-360 | Two array operations pushed one after the other build one array with the indices in that order. |
| Declarators.ResultType | freedce/idl/astp_sim.c:1456-1507 | A function declarator's own operation is the last of the list, and the rest builds the type of its result. |
| Declarators.Heap.FreeDeclarator | freedce/idl/astp_com.c:2309-2367 | Every operation of the declarator, and the declarator, is freed once; no node is read after it is freed. |
| Declarators.Heap.MakeOperation | freedce/idl/astp_sim.c:1436-1590 | An operation exactly if the last operation is a function; then name, parameters and result type are right and every node is freed once; otherwise nothing changes. |
| Unions.Search | freedce/idl/checker.c:5245-5315 | Finds the first later label, in another arm, that repeats a given one, or there is none. |
| Unions.CollideRules | freedce/idl/checker.c:5265-5300 | Two labels collide if both are default, or of one kind and equal; TRUE and FALSE do not, nor do strings or nulls, and of integers the number alone counts. |
| Unions.UnionCaseLabels | freedce/idl/checker.c:5215-5315 | The reports are the first repetitions of labels, one a label, in order; an error exactly if two labels of different arms are both default or equal in kind and value. |
| Unions.LabelRules | freedce/idl/checker.c:4669-4749 | A label passes exactly if it is default or of the discriminator's kind and, for an enumeration, names one of its constants; which error it gives otherwise. |
| Unions.NumberRules | freedce/idl/irepgen.c:741-758 | The number a label is kept as: of an integer itself, of a character its code with its sign, 1 for TRUE and 0 for FALSE. |
| Unions.CleanUnionIsDeterministic | freedce/idl/checker.c:4669-4749 | A union that is accepted has at most one arm for each number a label is kept as, and at most one default arm. |
| Unions.KindsMatter | freedce/idl/checker.c:4702-4715 | Without the label check two arms can share a number: an integer and a character label do not collide. |
| Switching.CountCases | freedce/idl/irepgen.c:713-725 | The first pass counts exactly the case labels. |
| Switching.GatherCases | freedce/idl/irepgen.c:726-763 | The second pass fills the array that the first one asked for, exactly and in the order of the source. |
| Switching.EntryRules | freedce/idl/irepgen.c:741-758 | What is written for a label is its number, or, if that is negative, the number plus 2^64, and its arm. |
| Switching.TableHas | freedce/idl/irepgen.c:764-791 | However equal labels are arranged by sorting, the table has an entry for each case label, with its value as an `unsigned long` and its arm, and no other. |
| Switching.FindUnionArmDefn | freedce/idllib/interpsh.c:1114-1175 | The loop is a binary search over the labels cut to 16 bits. |
| Switching.FindsAll | freedce/idllib/interpsh.c:1150-1165 | If the cut labels ascend, something is found exactly for the values that are among them. |
| Switching.FoundInPlace | freedce/idllib/interpsh.c:1150-1165 | On any labels at all, the search finds each where it stands if and only if they strictly ascend. |
| Switching.EveryLabelFound | freedce/idllib/interpsh.c:1154-1155 | For a table of labels with different values, every label is found in its place if and only if cutting to 16 bits keeps their order. |
| Switching.EndsAgree | freedce/idllib/ndrmi3.c:454-475 | The sender of an encapsulated union and the receiver pick the same arm exactly if the value, read without a sign, is below 65536 or the receiver finds no arm; what the sender picks, the receiver picks. |
| Switching.NarrowUnion | freedce/idllib/interpsh.c:1114-1223 | For every accepted union, every table of it and every value, where the discriminator has at most 16 bits and can hold the labels: the receiver picks an arm if and only if it has the value for a label, the sender of an encapsulated union if and only if, besides, the value is not negative. |
| Switching.SelectableIff | freedce/idl/checker.c:4669-4749 | A label that passes the checks is picked for some value of the discriminator if and only if some such value ends in the same 16 bits. |
| Switching.SendableIff | freedce/idllib/ndrmi3.c:454-475 | For the sender of an encapsulated union, if and only if those 16 bits are themselves a value of the discriminator. |
| Switching.EitherSide | freedce/idl/irepgen.c:745-753 | 0xFFFFFFFF for `unsigned long` and 65535 for `short` are picked, '\377' for `char` never is. |
| Switching.ArmOutOfReach | freedce/idl/checker.c:4669-4749 | `union switch (small s) { case 1000: ... }` is accepted and nothing picks its arm. |
| Switching.LabelLost | freedce/idllib/interpsh.c:1150-1165 | With `case 1` and `case 65536` of a `long`, accepted, no value picks the second arm. |
| Switching.LabelsShared | freedce/idllib/interpsh.c:1150-1165 | With `case 1` and `case 65537`, accepted, both values pick the first arm. |
| Switching.NegativeNotSent | freedce/idllib/ndrmi3.c:454-475 | `case -1` of a `short`, encapsulated, is picked by -1 at the receiver and by nothing at the sender. |
| Arrays.ArrayIndexNode | freedce/idl/astp_cpx.c:153-204 | The bounds of a dimension; [n] runs from 0 to a copy of n less one, has n elements, and the named constant keeps its value. |
| Arrays.BoundsRules | freedce/idl/checker.c:1656-1660 | A fixed dimension is reported exactly if it has no element. |
| Arrays.ArrayIsLarge | freedce/idl/checker.c:279-330 | With bounds in order, true exactly if some dimension's size, as an `int`, or the product up to it, as a `long`, exceeds 65535; if every size is an `int`, exactly if the product of all fixed dimensions does, in spite of the early exits, and no product on the way exceeds 65535 * 65535. |
| Arrays.JudgedRightly | freedce/idl/checker.c:307-327 | Up to any dimension, as long as sizes fit, something has exceeded 65535 exactly if the product has. |
| Arrays.OverflowMissed | freedce/idl/checker.c:312-325 | An array with a size that is no `int` is large; it is judged so if and only if the dimensions before the first such size are large or something later exceeds 65535. |
| Arrays.OneDimension | freedce/idl/checker.c:312-320 | An array of one dimension is judged rightly if and only if its size is an `int`. |
| Enumerations.Number | freedce/idl/astp_sim.c:508-524 | The values stored, and the error exactly if some value lies outside -1 to 32765. |
| Enumerations.NumberingExact | freedce/idl/astp_sim.c:508-518 | The numbering is C's exactly if every explicit 0, but a first one, follows a -1. |
| Enumerations.ZeroLost | freedce/idl/astp_sim.c:513-516 | `{ a = 5, b = 0 }` makes b 6. |
| Enumerations.NumberedFromZero | freedce/idl/astp_sim.c:504-507 | Without explicit values the constants are numbered from 0. |
| Operations.Operation.Synthesize | freedce/idl/astp_sim.c:2106-2165 | Counts data by direction; pipes set their own flags; an anonymous pointer is looked through. |
| Operations.DirectionRules | freedce/idl/astp_sim.c:2106-2165 | A pipe is a pipe by itself or behind an anonymous pointer; what counts as input, as output and as the leading handle, said of the parameters one by one. |
| Operations.FlagRules | freedce/idl/astp_sim.c:2039-2165 | Each of the four flags in terms of the parameters' directions and types and of the result, and no other flag. |
| Operations.Operation.SetInsOuts | freedce/idl/astp_sim.c:2039-2091 | has_ins unless the only input is a leading handle; has_outs for an output or a result; the result becomes [out]. |
| Operations.Operation.Finish | freedce/idl/astp_sim.c:814-861 | All four attributes in terms of the parameter list, uplinks set, the result [out] unless it is void, and a pointer result without a class made [ptr]. |
| Operations.InsExact | freedce/idl/astp_sim.c:2051-2069 | has_ins holds exactly if some input other than a leading handle_t exists, if and only if it is not a leading handle_t that is not [in] beside one [in] parameter. |
| Operations.InputLost | freedce/idl/astp_sim.c:2058-2068 | `f([out] handle_t *h, [in] long x)` has an input and no has_ins. |
| Operations.FamilyRefused | freedce/idl/checker.c:2879-2884 | Every operation for which the synthesis is wrong breaks a rule on handles: direction, array of handles, or named pointer to a handle. |
| Operations.Operation.Check | freedce/idl/checker.c:2950-3075 | The errors about [maybe], about the direction of a binding parameter, and about arrays of and named pointers to handles, each exactly when its rule is broken. |
| Operations.HandleRules | freedce/idl/checker.c:2950-3075 | Which first parameters have a wrong direction for a handle, and which types are arrays of handles or named pointers to them. |
| Operations.Operation.FinishAndCheck | freedce/idl/checker.c:3189-3205 | A [maybe] operation is refused exactly if it has an output: parameter, pipe or result; in every operation that passes and is not [local], has_ins holds exactly if there is an input other than a leading handle_t. |
| Codesets.CheckParameter | freedce/idl/chkichar.c:56-194 | The errors of one parameter, in order, in terms of the whole parameter list. |
| Codesets.FaultRules | freedce/idl/chkichar.c:56-194 | Which errors a parameter, or the result, gives, said of the parameter list alone: data without a tag, a tag of the wrong direction, after its data or of the wrong type. |
| Codesets.FollowedRules | freedce/idl/checker.c:386-450 | The pointer of a [ref] parameter is looked through unless it is an array, a string, or leads to void or a function. |
| Codesets.CheckTags | freedce/idl/chkichar.c:222-260 | A duplicate is reported for exactly the tags given to more than one parameter. |
| Codesets.CheckOperation | freedce/idl/checker.c:3421-3499 | No error exactly if the operation is `Clean`. |
| Codesets.CleanMeans | freedce/idl/chkichar.c:56-260 | An operation is clean exactly if each tag is there at most once, is an unsigned long and has its direction, no data is declared before its tag, and all data has a tag, the result included. |
| Codesets.InDataIsTagged | freedce/idl/chkichar.c:73-85 | A clean operation with [in] data has exactly one cs_stag; it is [in] and an unsigned long, and no earlier [in] parameter is declared with such data. |
| Codesets.OutDataIsTagged | freedce/idl/chkichar.c:87-99 | The same for [out] data, results included, and cs_rtag. |
| Codesets.Propagate | freedce/idl/propagat.c:1877-2070 | The walk over a parameter's type passes up whether the type is or contains a [cs_char] type, and flags it if it contains one or is a typedef of one. |
| Codesets.CarriesIff | freedce/idl/propagat.c:1877-2070 | A type counts as data exactly if it is [cs_char], has such a type at any depth behind pointers or among parts, or is a typedef of one. |
| Codesets.TagBeforeData | freedce/idl/chkichar.c:143-155 | The cs_stag of a clean operation precedes all [in] data, declared or followed, exactly unless an earlier [in] parameter points to a type that is data only by being a typedef of a [cs_char] type. |
| Codesets.ReturnedTagBeforeData | freedce/idl/chkichar.c:157-169 | The same for cs_rtag and [out] data. |
| Codesets.TagFirstWithoutSynonyms | freedce/idl/chkichar.c:143-169 | Data that is no typedef of a [cs_char] type never comes before its tag in a clean operation. |
| Codesets.TagAfterSynonym | freedce/idl/propagat.c:2065-2070 | `f([in] c *data, [in, cs_stag] unsigned long tag)` passes, where c is a typedef of a [cs_char] type. |
| Ports.Interface.Split | freedce/idl/astp_sim.c:1740-1790 | Protocol, endpoint and warnings of a specification, or which of the two buffers of 256 characters it passes the end of. |
| Ports.ParseRules | freedce/idl/astp_sim.c:1740-1790 | How specifications read, by what is written: without a colon, with a plain endpoint, with brackets, and with an opening bracket only; and which warnings each gives. |
| Ports.Interface.ParsePort | freedce/idl/astp_sim.c:1707-1826 | Unless a buffer is overrun, the table grows by the entry, or, if the protocol is there, there is one warning. |
| Ports.Interface.ParseAll | freedce/idl/astp_sim.c:1792-1823 | After any sequence of specifications none of which overruns a buffer the table has each protocol once, with the endpoint first given for it. |
| Ports.ProtocolOverrun | freedce/idl/astp_sim.c:1753-1754 | The protocol passes its buffer if and only if the first colon has 256 characters or more before it. |
| Ports.EndpointOverrun | freedce/idl/astp_sim.c:1776-1777 | The endpoint passes its buffer if and only if the protocol does not and 256 characters or more stand between the brackets. |
| Ports.ShortestOverruns | freedce/idl/astp_sim.c:1721-1722 | The shortest specifications that do have 257 and 259 characters. |
| Ports.FirstWins | freedce/idl/astp_sim.c:1792-1823 | The table of any sequence is a map: distinct protocols, each given one present, each entry a first one. |
| Ports.EntriesStay | freedce/idl/astp_sim.c:1792-1823 | Entries keep their places in the table whatever is specified later. |
| Ports.RoundTrip | freedce/idl/astp_dmp.c:576-582 | The printed form p:[e], with anything behind it, reads back as (p, e) exactly if p has no colon and e no closing bracket. |
| Ports.DumpRoundTrip | freedce/idl/astp_dmp.c:573-582 | Reading the dump of a table gives the table again exactly if each entry is printable. |
| Ports.PrintableSpecifications | freedce/idl/astp_sim.c:1740-1790 | Which specifications give an entry that survives printing and reading. |

## Left out

- The ternary operator of expressions: its operands 2 and 3 are used unevaluated (`astp_exp.c:233-247,335-338`), and parenthesised sub-expressions, which the parser removes.
- Expressions.FoldPreservesMeaning: shift amounts outside 0 to 63, which C leaves undefined, are worth whatever an arbitrary function `Machine` says, the same at folding and at run time.
- Lowering.LoweringKeepsValue: a character, string, boolean or null literal is lowered to no name at all (`Nameless`); that the lookup of no name then fails is not modelled, nor is the rest of a field reference.
- Tags.Parser.Typedef: [transmit_as] and [represent_as], which clear or redirect attributes of the copy, and the link to the type copied are left out.
- Tags.Parser.TypedefWith: operations that make function types, pointer classes and array bounds are left out.
- Interfaces.Compile: actions stand for grammar rules; rules that make no type, and errors other than those about tags, are left out.
- Tags.Parser.SetArrayRep: the array node's index and varying flag are left out.
- Tags.Parser.PatchTagReferences: starts from an interface in which nothing is marked yet; `FindSelfPointers` is the same theorem from any sound marks, as after an import. Tag names have one scope.
- Tags.Parser.Define: stands for structures and discriminated unions (`astp_cpx.c:629-790`), whose tag handling is the same; the arms' labels and the discriminator are in `Unions`.
- Declarators.Declarator.PropagateType: types are values here, so attributes set on the nodes on the way, and sharing of nodes, are not captured; function pointers' parameter lists are a number.
- Declarators.Heap.FreeDeclarator: one declarator at a time, without the list of declarators around it and the index nodes of array operations.
- ClientBinding.ContextRun: statements of the stub before the prologue, such as the call of a [cs_tag_rtn] routine.
- ClientBinding.StubFile.SpellCallStart: the prologue of [auto_handle], which loops over servers, and the exact C text with its casts, are left out.
- Arrays.ArrayIsLarge: where an `int` or a `long` overflows, which C leaves undefined, a machine that wraps is modelled.
- Codesets.CheckParameter: only the tag checks; the checks on array attributes, pointers and [handle] of [cs_char] data are independent of them.
- Codesets.CheckOperation: only the tag checks, as for one parameter.
- Codesets.Propagate: types are trees, without [transmit_as] and without the array forms of pointees; [local] interfaces, to whose types nothing is propagated (`propagat.c:3108,3203`), are left out.
- Operations.Operation.Finish: attributes other than the four and the pointer class of the result.
- Operations.Operation.Check: the other checks of operations and parameters; a named pointer is checked where its typedef is, which is taken here as part of checking the operation.
- Ports.Interface.ParsePort: what happens once the end of a buffer has been passed, which C leaves undefined; the run is taken to end there.
- Switching.NarrowUnion: sorting is the C library's and is known by its result; a `char` is taken to be signed and an `unsigned long` to have 64 bits in the compiler; the arms' own marshalling, the raising for a value without an arm, and the discriminator read as a `long` for the wire (`ndrmi3.c:538-539`) are left out.
- Multi-declarator fields, which pass the list head instead of the current declarator (`astp_cpx.c:929`).
- The name table, string table, allocator, file output and message texts; interned names are numbers or strings and errors are counted.
- The threading library (`dcethreads`), the run-time library but for the opcode function, DCOM, UUIDs and the tree dumpers but for the port format.
