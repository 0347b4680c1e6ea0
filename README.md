# Hoare-prover core in Dafny

Hoare-prover is a small verifier for annotated imperative programs. A parser
builds a syntax tree with assignments, `if`/`else`, and `while` loops that
carry an invariant and a variant. A weakest-precondition (WP) generator then
walks each statement block backwards to produce a formula. That formula is
handed to Z3, or checked by a small concrete evaluator.

This project models the generator and everything it depends on:

- `cint.dfy` (`CInt`): the C `int` behaviour the sources rely on. This is
  32-bit wrap-around, truncating division and the factorial.
- `ast.dfy` (`Ast`): the node sum type and the node constructors. Statement
  blocks are a doubly linked list, modelled as class `Dll` with cells `Cell`.
- `structure.dfy` (`Structure`): the deep copy `clone_node` and the
  capture-naive substitution `substitute`, including the loops that rebuild a
  block statement by statement.
- `equality.dfy` (`Equality`): `ast_equal` and `is_node_true`. Both revisions
  of `hoare.c` define them with the same text, so they are modelled once.
- `hoare.dfy` (`Hoare`): the current WP engine. It covers the walk over a
  block, the three statement rules and the hard-coded postcondition of the
  while rule. It also covers the "variant after the body" loop, `fact`, and
  the evaluator without an error channel.
- `hoare_old.dfy` (`HoareOld`): the first WP engine.
  - Its two process globals are the fields of class `Verifier`:
    - the list of verification conditions (VCs) becomes `vcList`;
    - the evaluator's failure flag becomes `evalError`.
  - Each rule is a method proved equal to a pure specification function.
    That function threads the list through explicitly.
- `hashmap.dfy` (`HashMap`): the variable cache.
  - The djb2 hash works on 64-bit `unsigned long`.
  - Buckets are chained, and inserting either updates an entry or adds one.
  - Class `HashMap` keeps ghost `chains` and `Contents`, which are the
    abstract bucket contents.
- `data_struct.dfy` (`DataStruct`): the legacy node constructors and the
  legacy singly linked block.

Modelling conventions:

- A C NULL tree is the constructor `Null`, and a NULL block is `NoBlock`. A
  block that a node points to is held as the value `Block(stmts)`.
- Trees are values, so a deep copy equals its original. "Fresh" trees and
  shared subtrees cannot be told apart.
- `int` arithmetic in the evaluators and in `fact` wraps modulo 2^32 (`Wrap32`).
  C `/` truncates toward zero (`TruncDiv`).
- Keys of the hash map are C strings: characters 1..255, read as signed
  `char` when added to the hash.

## Model

| member | source | states |
|---|---|---|
| CInt.Wrap32 | Hoare/hoare.c:312-314 | the 32-bit result is congruent to the exact value modulo 2^32 and equals it when it fits in an `int` |
| CInt.TruncDiv | Hoare/hoare.c:315 | C division: the remainder is smaller than the divisor in magnitude and has the dividend's sign (or is zero) |
| CInt.TruncDivSpec | old_version/Hoare/hoare.c:425-430 | truncating division is the quotient of the magnitudes, negated when the signs differ |
| CInt.Wrap32Mul | Hoare/hoare.c:13 | wrapping an operand before multiplying does not change the wrapped product |
| CInt.FactorialTable | Hoare/hoare.c:6-14 | factorials up to 12! fit in a 32-bit `int` |
| Ast.AllocNode | Ast/ast.c:5-11 | a non-NULL node with the requested tag and every payload zero, empty or NULL |
| Ast.CreateNodeBinary | Ast/ast.c:13-20 | a binary-operator node holding the operator and both children |
| Ast.CreateNodeUnary | Ast/ast.c:22-29 | a unary-operator node holding the operator and its child |
| Ast.CreateNodeNumber | Ast/ast.c:32-37 | a number node holding the value |
| Ast.CreateNodeId | Ast/ast.c:39-44 | an identifier node holding the name |
| Ast.CreateNodeAssign | Ast/ast.c:47-52 | an assignment node holding target and expression |
| Ast.CreateNodeIfElse | Ast/ast.c:54-61 | an if/else node holding condition, then-block and else-block |
| Ast.CreateNodeWhile | Ast/ast.c:63-71 | a while node holding condition, body, invariant and variant |
| Ast.CreateNodeFunc | Ast/ast.c:73-80 | a function-call node holding the name and both arguments |
| Ast.CreateNodeBool | Ast/ast.c:82-87 | a boolean node holding the value |
| Ast.Cell.constructor | Ast/ast.c:100-106 | a cell holding the node with `next` and `prec` NULL |
| Ast.Dll.constructor | Ast/ast.c:91-98 | an empty, valid list: `first`, `last`, `pre` and `post` all NULL |
| Ast.Dll.Append | Ast/ast.c:108-119 | the statements become old ++ [node]. An empty list gets the new cell as `first` and `last`. Otherwise the old last cell's `next` and the new cell's `prec` link the two, `first` stays, and `last` moves to the new cell. `pre`/`post` are unchanged and the list stays well-linked |
| Structure.Clone | Ast/ast.c:367-457 | a deep copy is equal to its original, as a value. NULL copies to NULL, and tag, strings, payloads, children and blocks are kept in order |
| Structure.CloneStmts | Ast/ast.c:421-452 | a copied block has the same length and each statement is the copy of the one at the same position |
| Structure.CloneBlock | Ast/ast.c:421-452 | the block-copy loop yields `CloneStmts`, that is the block itself |
| Structure.CloneStmtsAppend | Ast/ast.c:421-452 | copying a block with one more statement appends that statement's copy |
| Structure.Substitute | Ast/ast.c:460-561 | An identifier named `x` becomes the replacement; any other identifier stays as it is. Numbers are kept. Operator names, function names and assignment targets are kept. If/while blocks keep their lengths. Booleans and NULL become NULL. The result is clonable |
| Structure.SubstituteStmts | Ast/ast.c:489-519 | a rewritten block has the same length, and each statement is rewritten in place |
| Structure.SubstituteBlock | Ast/ast.c:489-519 | the block-rewriting loop yields `SubstituteStmts` |
| Structure.SubstituteNotOccurring | Ast/ast.c:465-560 | on a Bool-free tree, substituting a variable that does not occur gives back the same tree |
| Structure.StmtsNotOccurring | Ast/ast.c:489-519 | the same for a block of Bool-free statements |
| Structure.SubstituteSelf | Ast/ast.c:531-539 | on a Bool-free tree, substituting `x` by `Identifier(x)` gives back the same tree |
| Structure.StmtsSelf | Ast/ast.c:489-519 | the same for a block |
| Structure.SubstituteDropsBools | Ast/ast.c:465-560 | the result contains no boolean literal, and a tree that contained one is changed by substitution |
| Structure.StmtsDropBools | Ast/ast.c:489-519 | no statement of a rewritten block contains a boolean literal |
| Structure.SubstituteOccurs | Ast/ast.c:460-561 | `y` occurs in `n[x := e]` iff `y` is not `x` and occurs in `n`, or `x` occurs in `n` and `y` occurs in `e` |
| Structure.IfElseOccurs | Ast/ast.c:484-503 | the same occurrence law for an if/else node |
| Structure.WhileOccurs | Ast/ast.c:504-523 | the same occurrence law for a while node |
| Structure.StmtsOccurs | Ast/ast.c:489-519 | the same occurrence law for a block |
| Structure.SubstituteEliminates | Ast/ast.c:531-539 | if `x` does not occur in the replacement, it does not occur in the result |
| Equality.AstEqual | Hoare/hoare.c:21-77 | equal trees are both NULL or both non-NULL with the same tag |
| Equality.AstEqualReflexive | Hoare/hoare.c:22 | every tree equals itself, as pointer identity makes it in the source |
| Equality.AstEqualSymmetric | Hoare/hoare.c:21-77 | the comparison does not depend on argument order |
| Equality.AstEqualTransitive | Hoare/hoare.c:21-77 | the comparison is transitive |
| Equality.AstEqualExact | Hoare/hoare.c:21-77 | on trees without nested blocks, `ast_equal` holds iff the trees are identical |
| Equality.AstEqualIgnoresStatements | Hoare/hoare.c:61-65 | two if/else nodes with the same condition compare equal whatever their blocks contain |
| Equality.IsNodeTrue | old_version/Hoare/hoare.c:29-31 | true exactly for the boolean literal 1 |
| Hoare.FactIsFactorial | Hoare/hoare.c:6-14 | on non-negative arguments `fact` is n! reduced to 32 bits |
| Hoare.FactExact | Hoare/hoare.c:6-14 | `fact` is exactly n! for 0..12 and -1 for negative arguments |
| Hoare.Prover | Hoare/hoare.c:82-107 | NULL for a NULL block or postcondition; an empty block returns the postcondition itself |
| Hoare.HoareProver | Hoare/hoare.c:82-107 | the loop from `last` back along `prec` computes `Prover` over the list's statements, and NULL without a list |
| Hoare.WalkPrefix | Hoare/hoare.c:92-104 | the walk over the first `i` statements depends only on those statements |
| Hoare.WalkAppend | Hoare/hoare.c:92-104 | walking `s1 ++ s2` walks `s2` first and then `s1` from its result, aborting on NULL |
| Hoare.ProverSequence | Hoare/hoare.c:82-107 | wp(s1; s2, Q) = wp(s1, wp(s2, Q)), and NULL when the inner step fails |
| Hoare.Statement | Hoare/hoare.c:109-132 | any tag other than assignment, if/else and while yields NULL |
| Hoare.AssignmentRule | Hoare/hoare.c:134-138 | if `x` does not occur in `E`, the precondition of `x := E` no longer mentions `x` |
| Hoare.SubstituteEliminatesWhenFresh | Hoare/hoare.c:134-138 | the same elimination stated on `substitute` for any postcondition |
| Hoare.SelfAssignmentIsSkip | Hoare/hoare.c:134-138 | on a Bool-free postcondition `x := x` has WP equal to the postcondition |
| Hoare.UnusedAssignmentIsSkip | Hoare/hoare.c:134-138 | an assignment to a variable absent from a Bool-free postcondition leaves it unchanged |
| Hoare.IfElseRule | Hoare/hoare.c:143-169 | the result is non-NULL iff the node is an if/else with condition, then-block and else-block; a branch whose WP fails leaves a NULL operand inside the non-NULL result |
| Hoare.EvalIfElseRule | Hoare/hoare.c:143-169 | the rule's formula evaluates to the WP of the branch selected by the condition |
| Hoare.WhileRuleShape | Hoare/hoare.c:210-232 | an accepted loop yields `WhileVc` over the invariant, the guard, the body's WP against the invariant, the postcondition, the variant and the variant after one pass |
| Hoare.EvalWhileVc | Hoare/hoare.c:210-232 | for closed parts that condition holds iff (I∧B ⇒ W), (I∧¬B ⇒ Q) and (I∧B ⇒ V' < V ∧ V >= 0) |
| Hoare.PartialMeaning | Hoare/hoare.c:210-215 | the partial-correctness half holds iff (I∧B ⇒ W) and (I∧¬B ⇒ Q) |
| Hoare.TerminationMeaning | Hoare/hoare.c:226-229 | the termination half holds iff I∧B gives V' < V and V >= 0 |
| Hoare.AndMeaning | Hoare/hoare.c:250-252 | `and` of two defined formulas is defined and is their conjunction |
| Hoare.ImpliesMeaning | Hoare/hoare.c:258-262 | `->` of two defined formulas is defined and is their implication |
| Hoare.ExpectedPost | Hoare/hoare.c:194-208 | the hard-coded postcondition `sum == (n*(n+1))/2` mentions `n` and `sum` and has no block or boolean literal |
| Hoare.WhileRule | Hoare/hoare.c:174-239 | non-NULL exactly when `ast_equal` accepts the postcondition against the hard-coded one |
| Hoare.WhileRuleAccepts | Hoare/hoare.c:194-209 | that acceptance holds iff the postcondition is exactly `sum == (n*(n+1))/2` |
| Hoare.WellFormedAssigns | Hoare/hoare.c:218-225 | every statement of a well-formed body is present and its assignments have copyable expressions |
| Hoare.VariantStep | Hoare/hoare.c:220-223 | statements other than assignments leave the variant unchanged |
| Hoare.VariantAfter | Hoare/hoare.c:218-225 | the rewritten variant is clonable |
| Hoare.ComputeVariantAfter | Hoare/hoare.c:218-225 | the loop over the body computes `VariantAfter` of a copy of the variant |
| Hoare.VariantAfterAppend | Hoare/hoare.c:218-225 | the body is processed first to last: `s1 ++ s2` is `s1` then `s2` |
| Hoare.VariantAfterNoAssign | Hoare/hoare.c:220-223 | a body without direct assignments leaves the variant unchanged |
| Hoare.VariantAfterTwoAssignments | Hoare/hoare.c:218-225 | for `x1 := e1; x2 := e2` the variant becomes `V[x1 := e1][x2 := e2]`, the forward order |
| Hoare.EvalExpr | Hoare/hoare.c:299-346 | numbers evaluate to themselves; `min`/`max` return the smaller/larger argument |
| Hoare.EvalFormula | Hoare/hoare.c:243-296 | `->`, `and`, `or` and `not` have their logical meaning; an unknown binary operator, a unary operator other than `not`, and every leaf are false |
| HoareOld.FactRevisions | old_version/Hoare/hoare.c:12-25 | the first `fact` agrees with the current one on non-negative arguments and returns 0 (not -1) on negative ones |
| HoareOld.Conjoin | old_version/Hoare/hoare.c:143-151 | with VCs present the result is a conjunction; it stays clonable |
| HoareOld.ConjunctsConjoin | old_version/Hoare/hoare.c:143-151 | the combined formula takes apart into the precondition and every VC in list order: `((wp and vc1) and vc2) ...` |
| HoareOld.Conjuncts | old_version/Hoare/hoare.c:143-151 | peeling k conjunctions yields at most k VCs |
| HoareOld.SubstVc | old_version/Hoare/hoare.c:298-311 | NULL entries are skipped |
| HoareOld.SubstVcs | old_version/Hoare/hoare.c:295-313 | each entry is rewritten in place, length and order kept |
| HoareOld.SubstVcList | old_version/Hoare/hoare.c:288-315 | no list: nothing happens; otherwise a list of the same length |
| HoareOld.ProverSpec | old_version/Hoare/hoare.c:96-152 | NULL with the list untouched for a NULL block or postcondition. Otherwise a list exists afterwards and no VC is lost |
| HoareOld.ProverConjoinsAllVcs | old_version/Hoare/hoare.c:143-151 | a successful result is the walk's precondition conjoined with every VC then in the list, in order |
| HoareOld.WalkSpec | old_version/Hoare/hoare.c:115-141 | the backward walk never shortens the list |
| HoareOld.StatementSpec | old_version/Hoare/hoare.c:157-172 | any other tag fails and leaves the list alone |
| HoareOld.AssignSpec | old_version/Hoare/hoare.c:180-187 | the list keeps its length |
| HoareOld.AssignEliminatesTarget | old_version/Hoare/hoare.c:180-187 | if `x` does not occur in `E`, neither the new precondition nor any VC in the list mentions `x` |
| HoareOld.IfElseSpec | old_version/Hoare/hoare.c:192-218 | non-NULL iff the node is a complete if/else; on failure the list is untouched |
| HoareOld.WhileSpec | old_version/Hoare/hoare.c:229-285 | fails with the list untouched iff post, condition, invariant, variant or body is missing; otherwise returns the invariant and adds at least four VCs |
| HoareOld.WhileVcs | old_version/Hoare/hoare.c:241-276 | exactly four VCs, all clonable |
| HoareOld.WhileAppendsFourVcs | old_version/Hoare/hoare.c:245-281 | the list is the one left by the body's walk against I and then against V, followed by `(I∧B)->wp(C,I)`, `(I∧¬B)->Q`, `(I∧B)->V>=0`, `(I∧B)->wp(C,V)<V`, in that order, where the two WPs are those walks' results |
| HoareOld.LoopFreeKeepsList | old_version/Hoare/hoare.c:96-152 | a block without while loops adds no VC |
| HoareOld.WalkKeepsList | old_version/Hoare/hoare.c:115-141 | the same for the walk |
| HoareOld.StatementKeepsList | old_version/Hoare/hoare.c:157-172 | the same for one statement |
| HoareOld.LoopFreeAgrees | old_version/Hoare/hoare.c:96-152 | on loop-free code the first and current revisions compute the same WP |
| HoareOld.WalkAgrees | old_version/Hoare/hoare.c:115-141 | the same for the walk |
| HoareOld.StatementAgrees | old_version/Hoare/hoare.c:157-172 | the same for one statement |
| HoareOld.Verifier.constructor | old_version/Hoare/hoare.c:7-9 | no VC list and the error flag clear |
| HoareOld.Verifier.HoareProver | old_version/Hoare/hoare.c:96-152 | the loop computes `ProverSpec` on the global list and updates it to the spec's list |
| HoareOld.Verifier.CombineVcs | old_version/Hoare/hoare.c:143-151 | the conjoining loop computes `Conjoin` |
| HoareOld.Verifier.HoareStatement | old_version/Hoare/hoare.c:157-172 | computes `StatementSpec` on the global list |
| HoareOld.Verifier.AssignmentRule | old_version/Hoare/hoare.c:180-187 | computes `AssignSpec` on the global list |
| HoareOld.Verifier.IfElseRule | old_version/Hoare/hoare.c:192-218 | computes `IfElseSpec` on the global list |
| HoareOld.Verifier.WhileRule | old_version/Hoare/hoare.c:229-285 | computes `WhileSpec` on the global list |
| HoareOld.Verifier.AppendWhileVcs | old_version/Hoare/hoare.c:241-281 | the list becomes the old list followed by the four VCs of `WhileVcs`, in order |
| HoareOld.Verifier.SubstituteVcList | old_version/Hoare/hoare.c:288-315 | the in-place loop leaves the list equal to `SubstVcList` of the old list |
| HoareOld.Verifier.EvaluateFormula | old_version/Hoare/hoare.c:320-397 | the value and the new error flag are `EvalFormula` of the old flag; the VC list is untouched |
| HoareOld.Verifier.EvaluateExpr | old_version/Hoare/hoare.c:400-457 | the value and the new error flag are `EvalExpr` of the old flag |
| HoareOld.Verifier.EvaluateArith | old_version/Hoare/hoare.c:418-432 | the operator case: the value and the new flag are `EvalExpr` of the operator node |
| HoareOld.Verifier.EvaluateCall | old_version/Hoare/hoare.c:434-452 | the function-call case: the value and the new flag are `EvalExpr` of the call |
| HoareOld.EvalExpr | old_version/Hoare/hoare.c:400-457 | a set flag stays set and a failure gives 0; numbers are themselves; NULL, an identifier, any other non-arithmetic tag and an unknown function set the flag |
| HoareOld.ArithErrors | old_version/Hoare/hoare.c:415-432 | an operator fails when an operand fails; with clean operands it fails exactly on an unknown operator or a zero divisor |
| HoareOld.EvalFormula | old_version/Hoare/hoare.c:320-397 | a failing formula is false; NULL is false and leaves the flag; identifiers, statements and calls fail; booleans and numbers are true iff non-zero; a unary operator other than `not` is false without failing |
| HoareOld.ConnectiveOutcome | old_version/Hoare/hoare.c:324-351 | a connective fails with its left side, otherwise has its logical meaning, and stops after a deciding left side |
| HoareOld.ComparisonOutcome | old_version/Hoare/hoare.c:353-366 | a comparison fails with an operand, otherwise compares the two values; an unknown comparison is false without failing |
| HoareOld.NegationOutcome | old_version/Hoare/hoare.c:369-377 | `not` fails with its operand and otherwise negates it |
| HoareOld.ExprAgrees | Hoare/hoare.c:299-346 | on expressions both revisions define, the first revision's evaluate_expr gives the current one's value with a clear flag |
| HoareOld.FormulaAgrees | Hoare/hoare.c:243-296 | on `and`/`or`/`not`/`->` over comparisons of such expressions, both revisions of evaluate_formula agree and the flag stays clear |
| HoareOld.CallAgrees | old_version/Hoare/hoare.c:434-451 | the call step of that agreement: `min`/`max` with two arguments and `fact` on a non-negative one |
| HoareOld.LiteralsDiffer | old_version/Hoare/hoare.c:379-383 | where they differ: `Bool(1)` and a non-zero number are true in the first revision and false in the current one |
| HoareOld.FormulaClearsFlag | old_version/Hoare/hoare.c:320-323 | a formula first clears the flag, so its outcome does not depend on the old flag |
| HashMap.SignedChar | Hashmap/hashmap.c:26-28 | a character is read as a signed `char`: in -128..127 and congruent to its code modulo 256 |
| HashMap.Djb2Step | Hashmap/hashmap.c:29 | one step stays within `unsigned long` |
| HashMap.Djb2StepIsTimes33 | Hashmap/hashmap.c:29 | the shift-and-add step is `h*33 + c` modulo 2^64 |
| HashMap.Djb2From | Hashmap/hashmap.c:28-29 | the hash of a string stays within `unsigned long` |
| HashMap.Djb2 | Hashmap/hashmap.c:24-32 | the hash seeded with 5381 stays within `unsigned long` |
| HashMap.Djb2Snoc | Hashmap/hashmap.c:28-29 | hashing one more character is one more step on the previous hash |
| HashMap.HashDjb2 | Hashmap/hashmap.c:24-32 | the loop computes `Djb2` of the string |
| HashMap.BucketIndex | Hashmap/hashmap.c:34-36 | the index lies in `[0, size)` |
| HashMap.HashMap.Hash | Hashmap/hashmap.c:34-36 | returns `BucketIndex` of the key |
| HashMap.FindKey | Hashmap/hashmap.c:49-56 | the position of the first entry with the key, or -1 when there is none |
| HashMap.FindKeyIsFirst | Hashmap/hashmap.c:49-56 | the first matching position is unique |
| HashMap.LookupInsertChain | Hashmap/hashmap.c:45-62 | after inserting, looking up the key gives the new value and every other key is unaffected |
| HashMap.InsertChainShape | Hashmap/hashmap.c:49-61 | keys stay unique. The chain grows by one iff the key was absent, and then the old chain follows the new head. A present key keeps the length |
| HashMap.InsertBuckets | Hashmap/hashmap.c:45-62 | only the key's own bucket changes |
| HashMap.FindInsert | Hashmap/hashmap.c:45-62 | a map lookup after insert gives the new value for the key and the old result for any other key |
| HashMap.InsertKeepsKeyed | Hashmap/hashmap.c:45-62 | unique keys per bucket, each in its hash bucket, are preserved |
| HashMap.PlacedPush | Hashmap/hashmap.c:58-61 | a fresh entry at a bucket head keeps every entry at a distinct place |
| HashMap.HashEntry.constructor | Hashmap/hashmap.c:38-44 | the entry holds the key and value with `next` NULL |
| HashMap.HashMap.constructor | Hashmap/hashmap.c:5-22 | stores `size` and leaves `size` empty buckets |
| HashMap.HashMap.Insert | Hashmap/hashmap.c:45-62 | the abstract buckets become `InsertBuckets` of the old ones. The table stays consistent with them, only new entries are allocated, and `size` is unchanged |
| HashMap.HashMap.SetValue | Hashmap/hashmap.c:51-53 | the found entry's value is overwritten in place and nothing else changes |
| HashMap.HashMap.PushFront | Hashmap/hashmap.c:58-61 | a new entry becomes the head of the bucket and the old chain follows it |
| DataStruct.CreateNodeBinary | data-struct.c:9-17 | a binary-operator node holding the operator and both children |
| DataStruct.CreateNodeNumber | data-struct.c:19-25 | a number node holding the value |
| DataStruct.CreateNodeId | data-struct.c:27-33 | an identifier node holding the name |
| DataStruct.CreateNodeAssign | data-struct.c:36-42 | an assignment node holding target and expression |
| DataStruct.CreateNodeIf | data-struct.c:44-51 | an if node holding condition and block |
| DataStruct.CreateNodeWhile | data-struct.c:53-60 | a while node holding condition and block |
| DataStruct.LineCell.constructor | data-struct.c:71-76 | a cell holding the node with `next` NULL |
| DataStruct.LDll.constructor | data-struct.c:64-69 | an empty, valid list with `first` and `last` NULL |
| DataStruct.LDll.Append | data-struct.c:78-88 | the statements become old ++ [node]. An empty list gets the new cell as `first` and `last`. Otherwise the old last cell links to it, `first` stays, and `last` moves |

## Left out

- Printing and tracing (`print_*`, `hoare_prover_debug`, `debug_substitution_step`, `evaluate_and_trace`, all diagnostics): output only.
- `free_*` and the reference counting of Z3 values: memory management has no observable effect on value trees.
- Allocation failure (`malloc` returning NULL in `create_HashMap` and the node constructors): the model assumes allocation succeeds.
- The Z3 wrapper and the parser: foreign code and generated tables. Z3 values in the hash map are an opaque type parameter `V`.
- `CInt.Arith`, `Hoare.EvalExpr`, `Hoare.Fact`, `HoareOld.Fact`: C signed overflow is undefined behaviour. These model it as wrap-around modulo 2^32, including `INT_MIN / -1`.
- `Hoare.EvalExpr`, `Hoare.EvalFormula`: the current evaluator falls off the end of the function for unknown operators, tags and function names, and divides by zero unchecked. `ExprDefined`/`FormulaDefined` exclude those inputs instead of modelling undefined results.
- Structure.Clone: `Clonable` excludes an if/else or a while node whose statement block is NULL, because clone_node walks those blocks without a NULL test (Ast/ast.c:424, 429, 444).
- Structure.Clone, Structure.Substitute: the nested blocks of a tree are values. The copy is therefore equal to its original rather than a distinct allocation, and the `pre`/`post` annotations of nested blocks are not carried (neither function keeps them).
- `Hoare.WellFormed`, `HoareOld.WellFormed`: every statement must be non-NULL with clonable expressions, an over-approximation of the points where the source would dereference NULL. In the current revision a `while` must also have a body, since the variant loop walks it unconditionally.
- Strings are never NULL: every string in a tree comes from `strdup`. The NULL-string branches of `ast_equal` are not modelled, and pointer identity in `ast_equal` is modelled by both sides being NULL (reflexivity is proved instead).
- HashMap.HashMap.Insert: the search loop and the update are written as "find the entry, then update or prepend" instead of updating and returning from inside the loop; the effect is the same.
- HashMap.HashMap.constructor: requires a non-negative size, and `Hash`/`Insert` require a positive size, because `% 0` is undefined in C.
- HashMap.Djb2: keys are C strings of characters 1..255, and a character is read as a signed `char`, as on the platforms where `char` is signed.
- DataStruct.LDll.constructor: `pre` and `post` are left unset by the source, so nothing is promised about them.
