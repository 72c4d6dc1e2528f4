# Verified models of the Lua interpreter

Dafny models of the parts of a Lua 5.1.5 interpreter whose correctness is not
visible in any one function, with proofs of the properties that the rest of the
interpreter relies on:

- **The incremental garbage collector** (`Gc*.dfy`): five states, two whites,
  gray lists, write barriers in both directions, unbarriered stacks, weak tables,
  the interned strings and the open upvalues it must not lose. The program between
  two steps is part of the model: it allocates, writes through barriers, moves
  its stack, interns strings, and opens and closes upvalues.
- **The code generator for short-circuit expressions** (`Code*.dfy`): jump lists
  threaded through the code array, tests that are rewritten late, and the swap of
  the lists by `not`, against a small-step meaning of the instructions.
- **Tables** (`Table*.dfy`): an array part and a chained hash with Brent's
  variation, rehashing, traversal and the border, against a plain map; and
  **references** into a table (`Refs.dfy`).
- **Sorting** (`Sort.dfy`), **pattern matching** (`Patterns.dfy`, `Match.dfy`, `Finds.dfy`),
  **operator precedence** (`Exprs.dfy`, `Parser.dfy`), **JSON** (`JsonText.dfy`,
  `Json.dfy`), **quoted strings** (`Quoted.dfy`) and **precompiled chunks**
  (`Chunks.dfy`, `Undump.dfy`).

What the tables and constants of the code mean is said once more, without them, in
the files named `*Laws.dfy`, `GcModes.dfy` and `JsonGrammar.dfy`: character codes,
bytes, operator levels, the letters of `__mode` and the limits as numbers.

Code that works in place is a class or a method over an array with the fields and
loops of the C code, proved against functions and predicates on values; lemmas
about those functions and predicates are in the files that declare them.
`Wrappers.dfy`, `Limits.dfy` and `Texts.dfy` hold what the modules share.
Characters and bytes are Dafny characters or integers below 256; character
classes are those of the C locale.

Two properties turned out to hold only under a condition, which is proved to be
exact:

- A plain search, which `string.find` uses for a pattern without special
  characters, agrees with the matcher if and only if the pattern has neither a
  closing parenthesis nor a zero (`Patterns.PlainSearch`): the list of special
  characters lacks `)`, and the matcher stops at a zero.
- A chunk that is written and loaded is the same prototype if and only if no
  source in it is null (`Chunks.DumpUndump` with `Chunks.FilledSame`): a null source
  comes back as the parent's, and at the top as `=?`.

## Model

| member | source | states |
|---|---|---|
| Gc.GlobalState.ReachableIsAlive | src/lgc.c:407-428 | in every state of the collector each object reachable from the main thread, the running thread, the registry or the basic metatables is in the heap and is not one that the sweep may free |
| Gc.GlobalState.Step | src/lgc.c:556-607 | whatever the state, a step keeps the invariants, and every object reachable from the roots before it is still there after it |
| Gc.GlobalState.SingleStep | src/lgc.c:556-607 | the state goes from pause to propagate, sweepstring, sweep, finalize and back; in each state a measure decreases (white objects, then gray ones; buckets; objects left to sweep); a sweep removes exactly dead objects; the atomic step turns the white around and clears weak tables exactly |
| Gc.GlobalState.FullGc | src/lgc.c:635-658 | from any state it terminates; what is left is the least set with the main and the running thread, the registry and the basic metatables that holds whatever its members refer to by references that are not weak, and besides only fixed objects and strings kept by weak tables; each surviving table keeps and loses entries as the text of its `__mode` says |
| GcModes.TablesKept | src/lgc.c:158-197 | after a full collection a table whose `__mode` string names no `v` has all its items and every value of an entry whose key survives, one without `k` has all its keys, and an entry is gone exactly when its key or value is; a table without such a string loses nothing |
| GcModes.NothingElse | src/lgc.c:635-658 | roots survive, and what survivors hold by references that are not weak, field by field for each kind of object; an object outside some set that is closed under these references survives only as a string or a fixed object |
| GcModes.ModeIs | src/lgc.c:165-168 | a half of the entries is weak exactly if the first field `__mode` of the metatable is a string with its letter, `k` for keys and `v` for values, before any zero |
| Gc.GlobalState.Atomic | src/lgc.c:525-553 | everything strongly reachable is marked, no marked object leads to a white one, exactly the dead entries of weak tables are gone, and the white has been turned around |
| Gc.GlobalState.PropagateMark | src/lgc.c:277-320 | one gray object is traversed: the tri-colour invariant holds for one object more, and the measure of white and gray objects decreases |
| Gc.GlobalState.TraverseTable | src/lgc.c:158-197 | afterwards no strong edge of the table leads to a white object, and it is listed as weak exactly when its mode names keys or values (what the letters mean is `GcModes.ModeIs`) |
| Gc.GlobalState.SweepBucket | src/lgc.c:407-428 | one bucket of strings loses exactly its dead strings; the others have the current white |
| Gc.GlobalState.SweepRoot | src/lgc.c:407-428 | one object of the main list is freed exactly when it is dead and not fixed, with the upvalues of a thread that dies; else it gets the current white |
| GcPrecision.FullKeys | src/lgc.c:635-658 | after the sweep of the old marks, a new marking and a second sweep, the objects left are the strongly reachable and fixed ones and the strings kept by weak tables, and no others |
| GcPrecision.FullContents | src/lgc.c:351-375 | a surviving object is as it was, but that a table has lost exactly its entries to objects that are gone |
| GcHeap.StrongReachIsPath | src/lgc.c:69-112 | membership in every set closed under strong edges, which the proofs use, is the same as a path of strong edges from a root |
| Gc.GlobalState.Insert | src/lgc.c:685-691 | a new object with the current white, anywhere in the list of all objects and in any state, keeps the invariants; nothing alive dies |
| Gc.GlobalState.Store | src/lgc.h:86-97 | a write to any object but a table, with the forward barrier when a black object gets a white value, keeps the invariants in every state |
| Gc.GlobalState.StoreInTable | src/lgc.h:89-97 | a write to a table, with the barrier that makes a black table gray again, keeps the invariants in every state |
| Gc.GlobalState.BarrierForward | src/lgc.c:661-671 | while objects are marked the new target is marked; in a sweep the black object becomes white; in both cases the broken invariant is restored |
| Gc.GlobalState.BarrierBack | src/lgc.c:674-682 | the black table becomes gray and goes to the list that the atomic step visits again, which restores the invariant |
| Gc.GlobalState.SetStack | src/lgc.c:256-274 | a thread may write its stack at any time without a barrier: threads are never black while objects are marked |
| Gc.GlobalState.SwitchTo | src/lgc.c:533-534 | another live thread may become the running one, also between the marking of the roots and the atomic step |
| Gc.GlobalState.SetBasicMeta | src/lgc.c:493-497 | the metatables of basic types may change at any time without a barrier, since the atomic step marks them |
| Gc.GlobalState.Intern | src/lstring.c:75-93 | the one string with this text is returned: the old object if there is one, brought back to life if the sweep had not reached it, else a new one; the invariants of strings and of the collector hold |
| Gc.GlobalState.ResizeStrings | src/lstring.c:22-47 | all strings, and none twice, are in the buckets of the new table by their hash; nothing happens while strings are swept |
| Gc.GlobalState.NewString | src/lstring.c:50-72 | the new string is chained in its bucket and counted, and the table grows when it is full |
| Gc.GlobalState.FindUpval | src/lfunc.c:53-79 | the one open upvalue of the slot is returned, brought back to life if necessary, or a new one that joins the list of the thread in order of levels |
| GcWrites.OneForEachSlot | src/lfunc.c:53-79 | two open upvalues of the same slot are the same object |
| Gc.GlobalState.Close | src/lfunc.c:96-112 | of the open upvalues of the thread exactly those whose slot is at the level or above it are closed, with the value of the slot, or freed when dead; all others are as they were, and no object becomes dead or alive |
| Gc.GlobalState.LinkUpval | src/lgc.c:694-710 | the closed upvalue, gray while it was open, becomes black or white so that the invariants hold again |
| Gc.GlobalState.constructor | src/lgc.c:685-691 | the state of a new interpreter meets the invariants |
| GcBits.SweepTest | src/lgc.c:407-414 | the bit test of the sweep keeps an object exactly when its colour is not the other white or it is fixed, and the test for dead objects is true exactly for the other white |
| Gc.GlobalState.SweepBytes | src/lgc.c:407-420 | on bytes that encode the colours of all objects, the test of the sweep on a byte is the test of the model on the object, and turning the white around is the exclusive or with both white bits |
| Gc.GlobalState.WhitenBytes | src/lgc.c:32-35 | making an object white is the mask and the or on its byte, which keeps the bits that are no colour |
| GcBits.Recoloured | src/lgc.h:69-77 | the steps between white, gray and black and the change of white are the bit operations of the macros |
| Code.FuncState.CompileBody | src/lcode.c:737-783 | for every sequence of local declarations and assignments of short-circuit expressions, running the generated code leaves the values that the statements define in all active locals, or raises the error of the comparison that the statements reach first; no jump is left pending, no test without a register is left, and the only errors are 250 registers, 262143 constants, a jump over 131071 instructions, or as many instructions as an int counts |
| CodeLaws.ComparesNumbers | src/lcode.c:673-686 | when numbers are compared in the usual order, the code of `local c = a OP b` leaves whether a OP b holds, for each of the six operators |
| CodeLaws.ComparesValues | src/lcode.c:760-780 | the code of a comparison of any two expressions asks the machine for equality, less or less-or-equal of their values, the two exchanged for `>` and `>=` only, and raises the errors of either operand or of the comparison |
| CodeLaws.ShortCircuit | src/lcode.c:539-583 | `and` and `or` leave one of their operands, `not` a boolean; only nil and false count as false, and the second operand matters only if the first does not decide |
| CodeLaws.Constants | src/lcode.c:342-380 | nil, booleans, numbers, strings and locals leave themselves, and parentheses change nothing |
| CodeLaws.Assigns | src/lcode.c:472-478 | an assignment to a local leaves in it what a declaration would leave in a new one, and all other locals as they were |
| CodeLaws.DeclaresNils | src/lcode.c:35-56 | a declaration without values leaves nil in all its locals, and the others as they were |
| Code.FuncState.CompileExpr | src/lparser.c:828-853 | the code for an expression, its descriptor and its two jump lists mean the expression: a run that falls through has its value where the descriptor says, and one that leaves by a jump of a list has the truth value of that list |
| Code.FuncState.Exp2Reg | src/lcode.c:390-411 | a run leaves the value of the expression in the register, over all ways of leaving it, and no other active local changes |
| Code.FuncState.JumpOnCond | src/lcode.c:524-536 | the test or the inverted comparison jumps exactly when the value has the truth asked for; `not` before it is taken back |
| Code.FuncState.GoIfTrue | src/lcode.c:539-560 | the code goes on exactly when the expression is true; all other exits are in its list for false |
| Code.FuncState.GoIfFalse | src/lcode.c:563-583 | the same for false |
| Code.FuncState.CodeNot | src/lcode.c:586-618 | the code means the negation: the lists are swapped and no longer bring values |
| Code.FuncState.PosfixAnd | src/lcode.c:737-750 | the joined code and lists mean the conjunction with its short-circuit value |
| Code.FuncState.PosfixOr | src/lcode.c:737-757 | the same for the disjunction |
| Code.FuncState.CodeComp | src/lcode.c:673-686 | a comparison whose operands may be swapped jumps exactly when it holds |
| Code.FuncState.Concat | src/lcode.c:185-196 | the first list becomes the concatenation of two disjoint lists; only the link at its end changes |
| Code.FuncState.PatchListAux | src/lcode.c:150-160 | each jump of the list gets the target for jumps with a value or the other, its test is rewritten accordingly, and no other instruction changes |
| Code.FuncState.CodeInstr | src/lcode.c:789-801 | the jumps to here are patched to this position before the instruction is appended |
| Code.FuncState.Jump | src/lcode.c:59-66 | the jumps that waited for this position wait in the list of the new jump |
| Code.FuncState.LoadNilRegs | src/lcode.c:35-56 | after it the registers are nil, also when an earlier LOADNIL was widened or none was needed |
| Code.FuncState.JumpsConserved | src/lcode.c:59-66 | after each operation on an expression every pending jump is in exactly one of the lists for true and false, the comparison's own jump, the jumps to here and the jumps pending before it, and it is there once |
| CodeVm.RunPatch | src/lvm.c:541-585 | patching one pending jump changes the meaning of the code only for runs that leave by it: they go on at its target |
| TableHash.Table.Get | src/ltable.c:469-489 | the value of the key in the map that the array part and the nodes stand for |
| TableHash.Table.Set | src/ltable.c:494-505 | the slot of the key; no key has another value than before; nil and NaN raise their errors, and the only other error is a table of 2^26 keys |
| TableHash.Table.Put | src/ltable.c:494-505 | the map is updated at one key, whatever insertions, moves of nodes and rehashing it takes; an existing key moves nothing; a key other than nil and NaN fails only in a table of at least 0x4000000 live keys |
| TableHash.Table.NewKey | src/ltable.c:399-429 | the new key is found from its main position and all chains are in order; a rehash happens at most once |
| TableHash.Table.Place | src/ltable.c:404-427 | a colliding node out of its main position makes room, else the new key is chained; no value changes |
| TableNodes.MovedOk | src/ltable.c:412-420 | moving the colliding node keeps the invariant: keys are reachable from main positions that hold keys which belong there, and each node has at most one predecessor |
| TableNodes.ChainedOk | src/ltable.c:421-427 | chaining the new node keeps the same invariant |
| TableNodes.PlacedOk | src/ltable.c:399-404 | so does the reuse of a node whose value was deleted, also one in a foreign chain |
| TableHash.Table.GetFreePos | src/ltable.c:382-390 | a node that was never used, or none is left |
| TableHash.Table.Rehash | src/ltable.c:333-349 | no key is lost, the array part has the best size for its keys and the new one, and there is room for the new key |
| TableHash.Table.Resize | src/ltable.c:297-324 | all keys keep their values in the new parts, no insertion on the way needs a rehash, and it fails exactly when more than 0x4000000 nodes are asked for |
| TableHash.Table.CountKeys | src/ltable.c:333-345 | the counts by slices, of integer keys and of all keys are exact |
| TableSizes.ComputeSizes | src/ltable.c:189-208 | the largest power of two n with more than n/2 of the slots 1 to n in use, or zero, and the exact number of keys from 1 to n |
| TableSizes.BestSizeIff | src/ltable.c:189-208 | the size chosen is the best one exactly if it is zero or a power of two of slots more than half of which are in use, and no larger power of two is more than half in use |
| TableSizes.Log2 | src/lobject.c:54-69 | the position of the highest bit, and -1 for zero |
| TableHash.Table.NumUseArray | src/ltable.c:222-244 | the number of values in the array part, slice by slice and in all |
| TableHash.Table.NumUseHash | src/ltable.c:247-260 | the same for the nodes, with the keys that could go to the array part |
| TableHash.Table.Next | src/ltable.c:162-181 | the next entry with a value in the order of positions, or the end; an error for a key that is not there |
| TableHash.Table.Traverse | src/ltable.c:137-181 | a traversal from nil visits each key that has a value exactly once, also when it assigns to the fields it visits or clears them |
| TableHash.Table.GetN | src/ltable.c:560-576 | a border: n is zero or has a value, and n + 1 has none |
| TableHash.Table.UnboundSearch | src/ltable.c:532-553 | the doubling and the binary search find a border and end, also through the linear search when doubling leaves the integers |
| TableHash.Table.constructor | src/ltable.c:358-371 | a new table meets the invariants and holds nothing |
| Refs.RefTable.Ref | src/lauxlib.c:481-501 | a reference above zero that is not live, to the value, and the one released last if there is any; live ones keep theirs; nil has the reference -1 |
| Refs.RefTable.Unref | src/lauxlib.c:504-512 | the reference is no longer live, and slot zero names it as the next to be used; the others keep their values |
| Refs.OnlyBorder | src/lauxlib.c:495-498 | when the free list is empty the slots in use have no hole, so any border is their number |
| Sort.AuxSort | src/ltablib.c:194-255 | for every strict weak order the part is sorted, a permutation of what it was, nothing else is touched, and the recursion is no deeper than log2 of the length |
| Sort.Partition | src/ltablib.c:221-245 | the pivot ends between elements not above and not below it; the scans stay inside the part, so no order function is found invalid |
| Sort.TableSort | src/ltablib.c:257-265 | the whole array is sorted and is a permutation of what it was |
| Match.MatchState.Match | src/lstrlib.c:365-440 | for every subject, pattern and state of the captures: the first of all matches in the order of the meaning of the pattern, or its error; a failed call leaves all captures as they were |
| PatternLaws.Repeated | src/lstrlib.c:414-434 | a character, a point or a class with `*` or `+` at the end of a pattern matches the longest run of its characters, `+` at least one, with `-` nothing, and with `?` one character if it can |
| PatternLaws.RepeatedBefore | src/lstrlib.c:301-326 | before more of the pattern, `*` takes the most and `-` the fewest characters after which the rest matches, and there is no match when there is no such number |
| PatternLaws.LetterMeans | src/lstrlib.c:226-242 | which character codes each letter after `%` stands for, and its upper case for all others; any other character stands for itself |
| PatternLaws.OneClass | src/lstrlib.c:268-278 | a class alone matches one character, any for a point |
| PatternLaws.DollarAtEnd | src/lstrlib.c:409-412 | a dollar at the end matches the end of the subject only |
| PatternLaws.SetOfChars | src/lstrlib.c:245-265 | characters between brackets match exactly themselves, and exactly the others behind a circumflex |
| PatternLaws.SetOfRange | src/lstrlib.c:257-261 | a range in brackets matches the characters from its first to its last |
| PatternLaws.SetOfLetter | src/lstrlib.c:252-256 | a letter class in brackets matches the characters of the letter |
| PatternLaws.CaptureOne | src/lstrlib.c:329-351 | parentheses around a class add a capture of the one character at this position |
| PatternLaws.CapturePosition | src/lstrlib.c:369-370 | empty parentheses match nothing and add a capture of the position |
| PatternLaws.SameTwice | src/lstrlib.c:354-363 | `%1` matches the text of the first capture again |
| PatternLaws.TooMany | src/lstrlib.c:329-334 | more than 32 captures are an error, and 32 are not |
| PatternLaws.BalancedText | src/lstrlib.c:281-298 | `%bxy` matches from an x to the first y at which both have come equally often |
| PatternLaws.FrontierText | src/lstrlib.c:384-395 | `%f[c]` matches where a c starts that no c comes before |
| PatternLaws.Malformations | src/lstrlib.c:202-223 | the errors of patterns that end too early, close what is not open or refer to what was not captured |
| Finds.StrFindAux | src/lstrlib.c:495-533 | from the position that the third argument names, the first place where the literal text is, or the first place with a match or an error; a circumflex allows only the first place |
| Finds.Starts | src/lstrlib.c:495-501 | which start each position names, from the front, from the back and beyond both ends |
| Finds.FirstRun | src/lstrlib.c:516-529 | a class with `+` finds the first run of its characters, all of it, and nothing only if there is none |
| Finds.StrGsub | src/lstrlib.c:644-675 | the subject with the matches replaced, at most as many as asked for, and only at the start behind a circumflex |
| Match.MatchState.MaxExpand | src/lstrlib.c:301-313 | the first match of the rest after the most repetitions that allow one |
| Match.MatchState.MinExpand | src/lstrlib.c:316-326 | the first match of the rest after the fewest repetitions |
| Match.MatchState.StartCapture | src/lstrlib.c:329-340 | the match of the rest with the capture opened; a failure removes it |
| Match.MatchState.EndCapture | src/lstrlib.c:343-351 | the match of the rest with the innermost open capture closed; a failure opens it again |
| Match.MatchState.MatchBracketClass | src/lstrlib.c:245-265 | whether the character is in the set that the bracket denotes |
| Match.MatchState.FindClassEnd | src/lstrlib.c:202-223 | the end of the class, or the error of a malformed one |
| Match.MatchState.Find | src/lstrlib.c:510-529 | the first position from which there is a match or an error, with that outcome |
| Match.MatchState.Gsub | src/lstrlib.c:655-672 | the text with the first matches from left to right replaced, and their number |
| Patterns.OutcomesInside | src/lstrlib.c:365-440 | every match and every capture lies inside the subject |
| Patterns.BalanceTo | src/lstrlib.c:281-298 | the end of balanced text is the first position at which as many characters close as open |
| Patterns.PlainSearch | src/lstrlib.c:500-509 | for a pattern without special characters, the plain search and the matcher agree on all subjects if and only if it has no closing parenthesis and no zero |
| Patterns.ReplaceBySame | src/lstrlib.c:644-675 | replacing each match by itself leaves the subject as it is |
| PatternLaws.ReplaceOne | src/lstrlib.c:655-672 | a pattern of one character replaces the first occurrences of it, as many as allowed, and counts them |
| PatternLaws.ReplaceEmpty | src/lstrlib.c:655-672 | the empty pattern puts the replacement before each character and at the end |
| PatternLaws.ReplaceAnchored | src/lstrlib.c:671-672 | with an anchor at most one match is replaced, at the start |
| Exprs.SubExprIff | src/lparser.c:828-853 | parsing returns a tree exactly when the tokens are those of the tree, the priorities allow it, the next operator does not continue it, and it is not nested too deep |
| Exprs.WriteRead | src/lparser.c:801-815 | every tree, written with parentheses only where priorities need them, is read back |
| Exprs.ParensNeeded | src/lparser.c:801-815 | without such parentheses around an operand no tree with it would be read |
| Parser.LexState.ParseSub | src/lparser.c:828-853 | the recursive descent with limits computes the parse, and returns the first operator left |
| Parser.LexState.ParseExpr | src/lparser.c:856-858 | of all trees with these tokens it returns the one the priorities allow (what they are is `ExprLaws.Grouping` and the laws beside it), and it returns it whenever there is one |
| ExprLaws.Grouping | src/lparser.c:810-822 | from a list of seven levels of operators with their tokens: of two operators the second takes the operand between them exactly if it is on a later level, or both concatenate, or both are powers |
| ExprLaws.PrefixFirst | src/lparser.c:825-840 | a prefix operator takes the operand alone, and before a power the power |
| ExprLaws.PrefixSecond | src/lparser.c:825-840 | a prefix operator behind any operator is taken first |
| ExprLaws.PrefixTwice | src/lparser.c:833-837 | two prefix operators apply one after the other |
| ExprLaws.PrefixBetween | src/lparser.c:841-849 | between two operators a prefix operator takes a power that follows, and is an operand of the two in any other case |
| ExprLaws.Parentheses | src/lparser.c:667-677 | parentheses group before any operator |
| ExprLaws.AllTokens | src/lparser.c:778-807 | the tokens of the list are all operators there are |
| ExprLaws.NestingLimit | src/lparser.c:831-831 | parentheses may nest 199 deep and no deeper |
| JsonText.RoundTrip | src/lua_cjson.c:1216-1242 | every value of strings, booleans, null, arrays without holes and tables with string keys, within both depth limits and in any order of traversal, is encoded, and its text is decoded to the same value, to the end |
| JsonGrammar.DecodeIff | src/lua_cjson.c:1644-1803 | a text is decoded to a value exactly if its tokens are those of a tree with that value, with commas between and colons behind keys, no deeper than allowed, and with nothing behind it; of equal keys the last one counts |
| JsonLaws.StringDecoded | src/lua_cjson.c:1252-1456 | a string of characters, of short escapes, of escapes with four digits of either case, most significant first, and of pairs of them is decoded to the characters, the control characters by their codes, and the UTF-8 bytes of the code points |
| JsonLaws.LoneSurrogate | src/lua_cjson.c:1346-1370 | a surrogate that is not the first or second of a pair is an error |
| JsonLaws.BadEscape | src/lua_cjson.c:1421-1440 | any other character behind a backslash is an error |
| JsonLaws.BadDigits | src/lua_cjson.c:1265-1285 | anything but four hexadecimal digits behind `\u` is an error |
| JsonLaws.StringEncoded | src/lua_cjson.c:500-545 | each character is written as itself, as the short escape of its code, or as an escape with two zeros and two digits |
| JsonLaws.Words | src/lua_cjson.c:1173-1190 | true, false and null are these words, written and read |
| JsonLaws.Blank | src/lua_cjson.c:927-930 | characters 9, 10, 13 and 32 before a token are skipped |
| JsonLaws.NoToken | src/lua_cjson.c:915-943 | no other character than the ones listed starts a token |
| JsonLaws.NumberStarts | src/lua_cjson.c:1527-1604 | which characters start a number, also outside strict JSON, as is the default |
| JsonLaws.EndToken | src/lua_cjson.c:926-926 | a text ends where nothing or a zero is left behind blanks |
| JsonText.MarkRead | src/lua_cjson.c:920-925 | which character each bracket, comma and colon is |
| JsonLaws.ArrayEncoded | src/lua_cjson.c:1079-1100 | a table with positive integer keys is its items up to the largest key in square brackets, with commas between and null for holes, or an error if it is too sparse |
| JsonLaws.ObjectEncoded | src/lua_cjson.c:1131-1170 | any other table is its fields in braces, each a quoted key, a colon and the value, with commas between |
| JsonLaws.NestEncoded | src/lua_cjson.c:1049-1060 | tables that nest as deep as the limit are written, and deeper ones are an error |
| JsonLaws.NestDecoded | src/lua_cjson.c:1634-1642 | and read, within both limits |
| JsonLaws.TooDeep | src/lua_cjson.c:1634-1642 | more brackets in a row than the limit are an error, whatever follows |
| JsonText.CanonKeeps | src/lua_cjson.c:1699-1734 | the value read back has the same keys, each with what its value is read back as |
| JsonText.Utf8Correct | src/lua_cjson.c:1288-1321 | the bytes of a code point are its shortest UTF-8 form and denote it |
| JsonText.SurrogatePairs | src/lua_cjson.c:1332-1388 | a high and a low surrogate escape denote one code point, and every other use of a surrogate is an error |
| Json.Encoder.AppendQuoted | src/lua_cjson.c:976-1000 | the quoted and escaped string is appended; the room made first is enough for each unchecked append |
| Json.Encoder.AppendData | src/lua_cjson.c:1173-1214 | the text of the value is appended, or the first error is reported |
| Json.FindArrayLength | src/lua_cjson.c:1006-1047 | the largest key when all keys are positive integers, unless the array is too sparse |
| Json.JsonEncode | src/lua_cjson.c:1216-1242 | the text of the value, or the error |
| Json.Decoder.NextStringToken | src/lua_cjson.c:1398-1456 | the string token at this place or its error; the buffer made for the whole text is never exceeded |
| Json.Decoder.NextToken | src/lua_cjson.c:1527-1604 | the token at this place and where the text goes on |
| Json.Decoder.ProcessValue | src/lua_cjson.c:1737-1764 | the value at this place, or the first error, with the depth restored |
| Json.JsonDecode | src/lua_cjson.c:1766-1803 | the value of the whole text, or the error |
| Quoted.AddQuoted | src/lstrlib.c:696-723 | the quoted form of the string |
| Quoted.LexState.ReadString | src/llex.c:278-331 | the string that the text denotes, where reading goes on and on which line, or the error |
| Quoted.QuoteRead | src/llex.c:278-331 | every string comes back from its quoted form, which is read to its end, as long as the lines can be counted |
| QuotedLaws.StringRead | src/llex.c:278-331 | a string of characters, of backslashes with a letter, with one to three digits up to 255, with a line break of one or two characters and with any other character is read as the characters, the control characters by their codes, and its line breaks are counted |
| QuotedLaws.TooLarge | src/llex.c:312-322 | three digits above 255 are an error |
| QuotedLaws.Unfinished | src/llex.c:282-290 | so are a line break without a backslash and the end of the text |
| QuotedLaws.Writes | src/lstrlib.c:696-723 | which characters are written with a backslash, and how |
| Chunks.DumpUndump | src/lundump.c:195-209 | loading the bytes of a prototype that fits the format, is not nested too deep and is accepted by the checker gives it back with null sources filled in |
| Chunks.FilledSame | src/lundump.c:161-165 | filling in null sources changes nothing if and only if no source is null |
| ChunkLaws.ChunkLayout | src/ldump.c:143-164 | the twelve bytes of the header, and the function behind them |
| ChunkLaws.HeadLayout | src/ldump.c:129-139 | a function starts with its source, unless it is the parent's, two lines, four bytes, and the instructions and constants with their numbers before them |
| ChunkLaws.FunctionLayout | src/ldump.c:105-141 | then come the nested functions and their number, and the debug information |
| ChunkLaws.DebugLayout | src/ldump.c:111-127 | the lines, the local variables with where they start and end, and the names of the upvalues, with their numbers before them |
| ChunkLaws.ConstantLayout | src/ldump.c:80-106 | the types 0, 1, 3 and 4 of nil, booleans, numbers and strings, and their bytes |
| ChunkLaws.StringLayout | src/ldump.c:61-74 | a size of eight bytes, the low one first, that counts a zero at the end, and the bytes; size zero for none |
| ChunkLaws.BadHeader | src/lundump.c:183-190 | any other header is an error |
| ChunkLaws.BadParts | src/lundump.c:61-128 | so are integers with the highest bit and constants of other types |
| Undump.Load | src/lundump.c:195-209 | the result depends on the bytes only, however the reader cuts them into blocks |
| Undump.LoadState.GetFunction | src/lundump.c:161-181 | the prototype that the bytes denote under this parent, or the error |
| Undump.Zio.Read | src/lzio.c:58-71 | the bytes asked for, across blocks, or all that are left and how many are missing |
| Undump.Zio.Fill | src/lzio.c:21-32 | the first byte of the next block is taken from the stream, or there is none |
| Undump.Save | src/ldump.c:153-164 | with status zero all bytes of the prototype have been written, else a beginning of them |
| Undump.DumpState.PutFunction | src/ldump.c:129-141 | the bytes of the function follow what was written, unless the writer fails |

## Left out

- Gc.GlobalState.SingleStep: does not run finalizers (GCTM) in the finalize state, which has nothing left to do, and does not return the cost of the step.
- Gc.GlobalState.Step: the accounting of memory and the thresholds that decide when luaC_step runs how many steps.
- Gc.GlobalState.FullGc: without finalizers there is no userdata to separate, mark and keep; its loops over singlestep are separate methods.
- Gc.GlobalState.Atomic: does not separate userdata with finalizers (luaC_separateudata, marktmu) and does not compute the estimate of memory in use.
- Gc.GlobalState.SweepRoot: one iteration of the loop of sweeplist; the doubly linked list of open upvalues and the links of the other lists are sequences, and memory is not given back.
- Gc.GlobalState.TraverseTable: dead keys are not tagged; an entry that is cleared has a nil value and its key is ignored by edges.
- Gc.GlobalState.SetStack: stacks hold the slots below the top; slots above it and the resizing of stacks are left out.
- Gc.GlobalState.Intern: allocation never fails, and the hash of a string is a parameter.
- Gc.GlobalState.Store: the write is the new contents of the object, one changed reference at a time; the API functions that make it are left out.
- Code.FuncState.CompileBody: the fragment has nil, true, false, constants, locals, not, and, or, comparisons and parentheses; arithmetic, concatenation, calls, tables, upvalues, globals, control statements and line information are left out. Instructions are a datatype, and their packing into bits is left out.
- Code.FuncState.PatchListAux: jumps out of loops, which use the same lists, are not generated by the fragment.
- Code.FuncState.CompileExpr: takes the expression as a tree and calls the generator in the order in which the parser meets its operands and operators.
- TableHash.Table.Get: keys are compared by raw equality of values; the hash is any function, and the search functions for integers and strings are one.
- TableHash.Table.Set: the write barrier and the cache of absent metamethods are left out here.
- TableHash.Table.constructor: an array part of at most 2^26 slots, the size up to which rehash counts keys.
- TableHash.Table.ResizeArray: only growth, as the interpreter uses it.
- TableHash.Table.Traverse: the keys of collected objects, which luaH_next also accepts, need the collector.
- Sort.AuxSort: errors in the order function and changes of the table by it; an order that is not a strict weak one may make the scans leave the array or raise an error, and is excluded.
- Match.MatchState.Match: the limit of C stack for recursion.
- Finds.StrFindAux: the results are positions and captures as numbers; pushing them on the stack, and gmatch, are left out.
- Match.MatchState.Gsub: the replacement is a function of the match and its captures; how strings, tables and functions give one is left out, and so are gmatch and the results that captures push.
- Parser.LexState.ParseSub: operands are single tokens or parenthesized expressions; calls, indexing, constructors and functions, which contain expressions, are left out.
- JsonText.RoundTrip: numbers are printed and scanned by foreign functions and are no part of the round trip, and neither are integer keys of objects.
- Json.StrBuf.Resize: memory never runs out; only the exponential growth of the buffer is modelled.
- Json.Decoder.NextToken: the setting that allows numbers outside JSON is the default one.
- Quoted.LexState.ReadString: the text is at hand as a whole; the other tokens of the scanner are left out.
- Undump.Save: stripping debug information.
- Undump.LoadState.GetFunction: the bytecode checker is a parameter; integers are little endian with the sizes of the header.
- Finalizers, the C API, coroutines, hooks, metamethods, the other libraries and all input and output.
