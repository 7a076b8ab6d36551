# conf_upr core, modelled in Dafny

This project models three small tools from the conf_upr repository and proves
properties of the models.

**config_to_json** converts a small configuration language to records:
`var NAME := value` statements whose values are numbers, `[ ... ]` arrays and
`{ ... }` postfix expressions over the variables declared so far (`+ - *`,
`sort()`, `index()`). The model follows the `ConfigParser` class:
- `ConfigComments` removes comments with the two regular expressions;
- `ConfigLexer` is the tokenizer as an ordered list of token classes, where the first class that matches wins;
- `ConfigValues` gives Python's meaning of the operators on ints and lists;
- `ConfigEval` is the expression stack machine;
- `ConfigGrammar` is the recursive-descent grammar as functions of a token list and a cursor;
- `ConfigParserClass` is the `ConfigParser` class itself, with its `variables`, `tokens` and `position` fields. Each of its methods is proved to compute the grammar function for its part.

**4_dz** is a toy instruction set. It has four instructions: LOAD_CONSTANT,
MEMORY_READ, MEMORY_WRITE and OR.
- `Bits` models 48-bit words as bit sequences. `to_ulong` becomes `Num` and a shift-and-mask field read becomes `Field`. It also models the six-byte little-endian layout on disk.
- `Assembly` has the four encoders (bit-filling loops over the word) and the operand shape checks. Its `Assemble` class holds the output stream.
- `Semantics` has the interpreter's decoders and its dispatch loop as functions on a machine of 1024 memory cells and 32 registers, each a `uint32_t`.
- `Interpreter` is the `Interpret` class over two arrays, proved against `Semantics`.
- `Agreement` puts the two programs side by side. It proves what each assembled statement does once decoded. It proves that assembling and then interpreting a program runs its statements in order. It also exhibits the two fields whose widths differ: LOAD_CONSTANT's C is written with 26 bits and read with 24, and OR's C is written with 27 bits and read with 21.

**dependency_visualizer** draws the commit graph of a git repository. `Visualizer` models:
- `parse_config`;
- the header scan of `parse_commit`: its `parent ` lines, and its last `author ` line cut by `rsplit(' ', 2)`;
- `generate_dot`, with its loops, proved equal to a reference definition whose line structure is counted.

Three points about the code and the model:
- Python integers are unbounded, so values are `int` with no width.
- Python sorts a list of lists lexicographically; the model's `sort()` gives TypeError there instead (see Left out).
- An unclosed `(comment` is kept in the text by the first regular expression and then fails in the tokenizer at its `(`.

## Model

| member | source | states |
|---|---|---|
| ConfigComments.StripBlockComments | config_to_json/config_to_json.py:51 | the first pass never lengthens the text; BlockCommentRemoved and BlockPassKeepsPlainPrefix pin what it keeps |
| ConfigComments.StripLineComments | config_to_json/config_to_json.py:53 | the result has no `#` and is no longer than the input; LineCommentRemoved and LinePassKeepsPlainPrefix pin what it keeps |
| ConfigComments.RemoveComments | config_to_json/config_to_json.py:49-54 | comment removal leaves no `#` and never lengthens the text; NestedCommentsConvert shows both passes on a whole input |
| ConfigComments.BlockPassKeepsPlainPrefix | config_to_json/config_to_json.py:51 | text before the first `(` is kept character for character by the first pass |
| ConfigComments.BlockCommentRemoved | config_to_json/config_to_json.py:51 | a mid-text block comment is cut from its opener through its first `)`; the text before and after it is kept |
| ConfigComments.LinePassKeepsPlainPrefix | config_to_json/config_to_json.py:53 | text before the first `#` is kept character for character by the second pass |
| ConfigComments.LineCommentRemoved | config_to_json/config_to_json.py:53 | a `#` comment is cut up to its newline; the text before the `#`, the newline and the following lines are kept |
| ConfigComments.LastLineCommentRemoved | config_to_json/config_to_json.py:53 | a `#` comment on the last line is cut to the end of the text, the text before it kept |
| ConfigComments.StripLineCommentsKeepsLines | config_to_json/config_to_json.py:53 | removing `#` comments keeps every newline, so line structure is preserved |
| ConfigComments.StripLineCommentsIdentity | config_to_json/config_to_json.py:53 | text without `#` passes unchanged |
| ConfigComments.UnclosedBlockCommentSurvives | config_to_json/config_to_json.py:51 | without any `)` the block pass changes nothing, so an unclosed opener survives |
| ConfigComments.BlockCommentEndsAtFirstClose | config_to_json/tests.py:192-201 | a block comment ends at the first `)` after its opener, nested openers included (the non-greedy `.*?`) |
| ConfigLexer.MatchClass | config_to_json/config_to_json.py:20-35 | a class that matches consumes a non-empty prefix of the text and is never MISMATCH |
| ConfigLexer.FirstMatch | config_to_json/config_to_json.py:36-38 | the alternation: the first class in order that matches decides; none matching is MISMATCH at the first character |
| ConfigLexer.MatchPrefix | config_to_json/config_to_json.py:38-46 | each step of `re.finditer` consumes at least one character and no more than the text; MISMATCH reports the first character |
| ConfigLexer.MatchPrefixCases | config_to_json/config_to_json.py:20-35 | the class chosen for every kind of first character: digits, keywords before NAME, punctuation, operators, whitespace, anything else |
| ConfigLexer.SpaceIsDropped | config_to_json/config_to_json.py:43-44 | a SKIP character produces no token and the scan continues unchanged |
| ConfigLexer.WhitespaceIsDropped | config_to_json/config_to_json.py:33 | a run of spaces, tabs and newlines produces no token |
| ConfigLexer.UnmatchedCharacterFails | config_to_json/config_to_json.py:45-46 | a character no class accepts stops tokenizing with the error naming it, whatever follows |
| ConfigLexer.DecimalRoundTrip | config_to_json/config_to_json.py:41-42 | `int()` of the decimal digits of n is n |
| ConfigLexer.LexRender | config_to_json/config_to_json.py:37-47 | round trip: tokenizing the rendering of well-formed tokens gives back exactly those tokens |
| ConfigLexer.LexRenderThen | config_to_json/config_to_json.py:37-47 | the rendered tokens come back first whatever text follows, and the scan then goes on as on that text |
| ConfigLexer.VariableIsSplit | config_to_json/config_to_json.py:22-25 | `var` is tried before NAME, so `variable` is VAR then NAME `iable` |
| ConfigLexer.DigitsThenName | config_to_json/config_to_json.py:21-25 | a digit run is one NUMBER with its value; a name right after it is a separate token |
| ConfigLexer.WholeName | config_to_json/config_to_json.py:25 | an identifier not starting with a keyword is one NAME token |
| ConfigValues.Repeat | config_to_json/config_to_json.py:124-125 | list times int: the length is len times n, or 0 when n <= 0, and every element comes from the list |
| ConfigValues.ApplyDefinedness | config_to_json/config_to_json.py:116-126 | exactly when `+ - *` succeed: `+` on two ints or two lists, `-` on two ints only, `*` unless both are lists; two ints always give an int; every failure is TypeError |
| ConfigValues.InsertionSort | config_to_json/config_to_json.py:131 | the result is ascending and a permutation of the input |
| ConfigValues.SortedUnique | config_to_json/config_to_json.py:131 | two ascending permutations of the same list are equal, so `sorted` is determined |
| ConfigValues.SortValue | config_to_json/config_to_json.py:127-133 | `sort()` succeeds exactly on a list of ints or of at most one element, giving an ascending permutation (a short list unchanged); otherwise TypeError |
| ConfigValues.SortIdempotent | config_to_json/config_to_json.py:131 | sorting a sorted array changes nothing |
| ConfigValues.SortedStartsWithMinimum | config_to_json/config_to_json.py:131 | after `sort()` the first element is the least |
| ConfigValues.PyIndex | config_to_json/config_to_json.py:138-142 | Python indexing succeeds exactly for indices in [-len, len); outside that range it is IndexError |
| ConfigValues.NegativeIndexAlias | config_to_json/config_to_json.py:140 | index k and k - len select the same element |
| ConfigValues.IndexValue | config_to_json/config_to_json.py:134-144 | `index()` needs a list and an int (else TypeError), then indexes as Python does |
| ConfigEval.StepShape | config_to_json/config_to_json.py:107-146 | one token on the stack: a non-expression token is SyntaxError, too few operands is IndexError, success replaces the operands with one value and keeps the rest of the stack |
| ConfigEval.EvalFrom | config_to_json/config_to_json.py:106-150 | the loop stops only just past a `}` inside the tokens |
| ConfigEval.EvalFromStep | config_to_json/config_to_json.py:106-146 | one round of the loop at a token other than `}` |
| ConfigEval.ExecAppend | config_to_json/config_to_json.py:106-146 | running two pieces of code in turn is running their concatenation |
| ConfigEval.EvalFromExec | config_to_json/config_to_json.py:106-146 | on a `}`-free stretch the loop does exactly what the plain machine does, errors included |
| ConfigEval.ExecPostfix | config_to_json/config_to_json.py:106-146 | the postfix code of an expression tree pushes the tree's value, or fails with the tree's error |
| ConfigEval.ExecBinary | config_to_json/config_to_json.py:116-126 | two values then an operator leave the operator's result |
| ConfigEval.ExecSort | config_to_json/config_to_json.py:127-133 | a value then `sort()` leaves its sorted form |
| ConfigEval.ExecIndex | config_to_json/config_to_json.py:134-144 | an array, an index, then `index()` leave the element |
| ConfigEval.EvalPostfix | config_to_json/config_to_json.py:103-150 | `{ postfix(e) }` evaluates to the value of e, ending just past the `}` |
| ConfigEval.EvalPostfixValue | config_to_json/config_to_json.py:103-150 | a tree that denotes v, written in postfix before `}`, yields v with the cursor just past the `}` |
| ConfigEval.EvalPostfixFails | config_to_json/config_to_json.py:103-150 | a tree whose evaluation fails, written in postfix, fails the loop with the same error |
| ConfigEval.EvalFromClose | config_to_json/config_to_json.py:147-150 | at `}` with one value on the stack that value is the result |
| ConfigEval.CloseNeedsOneValue | config_to_json/config_to_json.py:148-149 | at `}` any other stack size is SyntaxError |
| ConfigEval.UndefinedNameFails | config_to_json/config_to_json.py:112-114 | an unbound name is NameError whatever the stack |
| ConfigEval.MissingOperandFails | config_to_json/config_to_json.py:118-119 | an operator with fewer than two operands is IndexError (pop from an empty list) |
| ConfigEval.ArithmeticExamples | config_to_json/tests.py:102-118 | with a = 5 and b = 3, `a b +`, `a b -` and `a b *` give 8, 2 and 15 |
| ConfigEval.BinaryExample | config_to_json/config_to_json.py:116-126 | `x y op` on two bound ints gives `x op y` |
| ConfigEval.NestedArithmeticExample | config_to_json/tests.py:151-163 | with x = 2 and y = 3, `x y + x y + *` gives 25 |
| ConfigGrammar.ExpectAt | config_to_json/config_to_json.py:152-160 | succeeds exactly when the cursor is on a token of the expected kind and returns it; otherwise SyntaxError |
| ConfigGrammar.ValueAt | config_to_json/config_to_json.py:79-88 | a parsed value consumes at least one token and stays inside the tokens |
| ConfigGrammar.ArrayAt | config_to_json/config_to_json.py:90-101 | a parsed array is an array and stays inside the tokens |
| ConfigGrammar.ElementsAt | config_to_json/config_to_json.py:92-99 | the array loop ends just past a `]` and keeps the elements read so far as a prefix |
| ConfigGrammar.CloseAt | config_to_json/config_to_json.py:100-101 | the closing `expect(RBRACK)` succeeds exactly at a `]`, else SyntaxError |
| ConfigGrammar.ExpressionAt | config_to_json/config_to_json.py:103-150 | a parsed expression ends just past a `}` |
| ConfigGrammar.DeclarationAt | config_to_json/config_to_json.py:71-77 | a declaration is `var`, the name it binds, `:=`, then a value |
| ConfigGrammar.StatementAt | config_to_json/config_to_json.py:64-69 | a statement not starting with `var` is SyntaxError |
| ConfigGrammar.StatementsAt | config_to_json/config_to_json.py:56-62 | no tokens left yields the records so far; a non-`var` token is SyntaxError |
| ConfigGrammar.StatementsBind | config_to_json/config_to_json.py:76 | the records extend the earlier ones, and the variable map binds each new record in order |
| ConfigGrammar.LastBindingWins | config_to_json/config_to_json.py:76 | a redeclared name holds the value of its last declaration |
| ConfigGrammar.BindKeepsOthers | config_to_json/config_to_json.py:76 | a name no statement declares keeps its binding or stays unbound |
| ConfigGrammar.RedeclarationIsSeen | config_to_json/config_to_json.py:71-77 | `var x := 1 var x := 2 var y := {x}` gives three records and binds y to 2 |
| ConfigGrammar.StatementsStep | config_to_json/config_to_json.py:58-61 | one round of the statement loop |
| ConfigGrammar.ValueAtExtends | config_to_json/config_to_json.py:79-88 | parsing a value never looks past the tokens it consumes |
| ConfigGrammar.StatementsSplit | config_to_json/config_to_json.py:56-62 | a program split after a complete statement parses as its first part followed by the rest, which sees the first part's bindings |
| ConfigGrammar.LiteralRoundTrip | config_to_json/config_to_json.py:79-101 | every number or nested array literal parses back to its value, consuming exactly its own tokens |
| ConfigGrammar.ListRoundTrip | config_to_json/config_to_json.py:90-101 | a bracketed list of literals parses to the array of their values |
| ConfigGrammar.ElementsRoundTrip | config_to_json/config_to_json.py:92-99 | comma-separated literals followed by `]` parse to their values |
| ConfigGrammar.ElementsValueFails | config_to_json/config_to_json.py:94 | an element that fails to parse makes the array fail with the same error |
| ConfigGrammar.ElementsPastEnd | config_to_json/config_to_json.py:96 | tokens ending right after an element is IndexError |
| ConfigGrammar.ElementsClose | config_to_json/config_to_json.py:98-100 | an element not followed by `,` must be followed by `]` |
| ConfigGrammar.ElementsComma | config_to_json/config_to_json.py:96-97 | an element followed by `,` continues the loop after the comma |
| ConfigGrammar.EmptyArray | config_to_json/config_to_json.py:93 | `[]` is the empty array |
| ConfigGrammar.TrailingCommaAccepted | config_to_json/config_to_json.py:96-100 | `[1, 2,]` is accepted as `[1, 2]` |
| ConfigGrammar.MissingCommaFails | config_to_json/config_to_json.py:98-100 | `[m n ...` is SyntaxError |
| ConfigGrammar.ExpressionValue | config_to_json/config_to_json.py:85-86 | a braced postfix expression is a value: the one its tree denotes |
| ConfigGrammar.BlankTextGivesNothing | config_to_json/config_to_json.py:12-14 | whitespace-only text converts to no records |
| ConfigGrammar.NestedCommentsConvert | config_to_json/tests.py:192-201 | for any indentation and any last comment, the nested-comment input converts to the single record `z = 30` |
| ConfigGrammar.NestedCommentsTest | config_to_json/tests.py:192-201 | the nested-comment input exactly as the test writes it converts to the record `z = 30` |
| ConfigGrammar.NestedCommentsRemoved | config_to_json/config_to_json.py:49-54 | on that input the outer comment ends at the inner one's `)`, taking the `#` line and `var y` with it, and the `var z` line loses its `#` comment |
| ConfigParserClass.ScanFromLex | config_to_json/config_to_json.py:37-47 | the tokenizing loop from any offset is the tokens so far followed by the scan of the rest |
| ConfigParserClass.ConfigParser.constructor | config_to_json/config_to_json.py:7-10 | empty variable map, no tokens, cursor at 0 |
| ConfigParserClass.ConfigParser.Parse | config_to_json/config_to_json.py:12-14 | tokenizer errors pass through; otherwise the result and the variable map are those of the grammar from the current cursor and map; a fresh instance computes Convert(text) |
| ConfigParserClass.ConfigParser.Tokenize | config_to_json/config_to_json.py:16-47 | `tokens` holds the scan of the comment-free text, and the result is the tokens or the unexpected-character error |
| ConfigParserClass.ConfigParser.ParseStatements | config_to_json/config_to_json.py:56-62 | the records and the new variable map are the grammar's, and success leaves the cursor at the end |
| ConfigParserClass.ConfigParser.ParseStatement | config_to_json/config_to_json.py:64-69 | agrees with the grammar and binds the declared name only on success |
| ConfigParserClass.ConfigParser.ParseVarDeclaration | config_to_json/config_to_json.py:71-77 | agrees with the grammar, then binds the name to the value |
| ConfigParserClass.ConfigParser.ParseValue | config_to_json/config_to_json.py:79-88 | result and new cursor agree with the grammar |
| ConfigParserClass.ConfigParser.ParseArray | config_to_json/config_to_json.py:90-101 | result and new cursor agree with the grammar |
| ConfigParserClass.ConfigParser.ParseElement | config_to_json/config_to_json.py:94-99 | one round of the array loop: an error is the array's error; otherwise the loop goes on after a `,` or stops before the closing `expect` |
| ConfigParserClass.ConfigParser.ParseExpression | config_to_json/config_to_json.py:103-150 | result and new cursor agree with the grammar |
| ConfigParserClass.ConfigParser.ExpressionStep | config_to_json/config_to_json.py:107-146 | one token applied to the stack is exactly one machine step, and success moves the cursor by one |
| ConfigParserClass.ConfigParser.Expect | config_to_json/config_to_json.py:152-160 | the result is the grammar's; the cursor moves by one exactly on success |
| ConfigParserClass.ConfigParser.Consume | config_to_json/config_to_json.py:162-163 | the same as Expect |
| Bits.Field | 4_dz/interpret/Interpret.cpp:31-33 | a field read by shift and mask is below 2^width |
| Bits.ToBytes | 4_dz/assemble/Assemble.cpp:4-10 | a word is written as exactly six bytes |
| Bits.FromBytes | 4_dz/interpret/Interpret.cpp:17-27 | the word read is always 48 bits |
| Bits.OrByteStep | 4_dz/interpret/Interpret.cpp:22-23 | ORing byte i into the word is reading one byte more |
| Bits.BytesRoundTrip | 4_dz/interpret/Interpret.cpp:17-27 | the interpreter reads back exactly the word the assembler wrote |
| Bits.ReadBytesBack | 4_dz/interpret/Interpret.cpp:20-25 | a short read is the bytes read followed by zero bytes |
| Bits.FieldOfBits | 4_dz/interpret/Interpret.cpp:31-33 | a field holding the low bits of x reads back as x mod 2^width |
| Assembly.LoadConstantLayout | 4_dz/assemble/Assemble.cpp:12-24 | the word's number is 195 + 2^8 (b mod 8) + 2^11 (c mod 2^26), and each field reads back |
| Assembly.MemoryReadLayout | 4_dz/assemble/Assemble.cpp:26-38 | the word's number and its three fields for opcode 83 |
| Assembly.MemoryWriteLayout | 4_dz/assemble/Assemble.cpp:40-54 | the word's number and its four fields for opcode 53 |
| Assembly.BitwiseOrLayout | 4_dz/assemble/Assemble.cpp:56-70 | the word's number and its four fields for opcode 74 |
| Assembly.Output | 4_dz/assemble/Assemble.cpp:85-233 | the binary is whole six-byte words |
| Assembly.OutputLength | 4_dz/assemble/Assemble.cpp:85-233 | six bytes per emitted statement, and nothing when the first statement is rejected |
| Assembly.RejectStops | 4_dz/assemble/Assemble.cpp:110-114 | a rejected statement ends assembly: nothing after it is written |
| Assembly.OutputAppend | 4_dz/assemble/Assemble.cpp:85-233 | assembling two programs without rejections is concatenating their binaries |
| Assembly.LoadConstantLineBytes | 4_dz/assemble/Assemble.cpp:86-101 | a well-formed LOAD_CONSTANT line gives the six bytes of its word number |
| Assembly.MemoryReadLineBytes | 4_dz/assemble/Assemble.cpp:121-137 | a well-formed MEMORY_READ line encodes the bracketed register as B and the first register as C |
| Assembly.MemoryWriteLineBytes | 4_dz/assemble/Assemble.cpp:157-177 | a well-formed MEMORY_WRITE line encodes the source register as B, the offset as C and the base register as D |
| Assembly.OrLineBytes | 4_dz/assemble/Assemble.cpp:198-212 | an OR line passing the comma and `\|` checks gives the bytes of its word |
| Assembly.LoadConstantTest | 4_dz/tests/tests.cpp:5-34 | `LOAD_CONSTANT R4, #187` assembles to c3 dc 05 00 00 00 |
| Assembly.MemoryReadTest | 4_dz/tests/tests.cpp:36-64 | `MEMORY_READ R5, [R4]` assembles to 53 2c 00 00 00 00 |
| Assembly.MemoryWriteTest | 4_dz/tests/tests.cpp:66-95 | `MEMORY_WRITE [R1 + 144], R6` assembles to 35 86 14 00 00 00 |
| Assembly.BitwiseOrTest | 4_dz/tests/tests.cpp:97-126 | `OR R5, [491] \| R1` assembles to 4a 5d 0f 00 40 00 |
| Assembly.Assemble.constructor | 4_dz/assemble/Assemble.cpp:72-237 | the output stream is the binary of the statements up to the first rejected one |
| Assembly.Assemble.AssembleLines | 4_dz/assemble/Assemble.cpp:85-233 | the statement loop appends exactly the binary of the statements |
| Assembly.Assemble.WriteBitset | 4_dz/assemble/Assemble.cpp:4-10 | appends the six bytes of the word, least significant first |
| Assembly.Assemble.LoadConstant | 4_dz/assemble/Assemble.cpp:12-24 | appends the LOAD_CONSTANT word |
| Assembly.Assemble.MemoryRead | 4_dz/assemble/Assemble.cpp:26-38 | appends the MEMORY_READ word |
| Assembly.Assemble.MemoryWrite | 4_dz/assemble/Assemble.cpp:40-54 | appends the MEMORY_WRITE word |
| Assembly.Assemble.BitwiseOr | 4_dz/assemble/Assemble.cpp:56-70 | appends the OR word |
| Assembly.FillField | 4_dz/assemble/Assemble.cpp:16-21 | filling the next field of a word filled from bit 0 upwards |
| Assembly.SetBits | 4_dz/assemble/Assemble.cpp:20-21 | a bit-filling loop writes the low bits of x into the field and keeps every other bit; the field reads back as x mod 2^width |
| Semantics.Initial | 4_dz/interpret/Interpret.h:17-18 | 1024 zero memory cells and 32 zero registers |
| Semantics.OrBits | 4_dz/interpret/Interpret.cpp:107 | bit k of `x \| y` is bit k of x or bit k of y |
| Semantics.OrIdentity | 4_dz/interpret/Interpret.cpp:107 | `x \| 0 == x` and `x \| x == x` |
| Semantics.Add32 | 4_dz/interpret/Interpret.cpp:80-85 | `registers[D] + C` wraps around at 2^32 |
| Semantics.LoadConstant | 4_dz/interpret/Interpret.cpp:30-44 | the memory is untouched and the machine keeps its shape; an opcode other than 195 changes nothing |
| Semantics.MemoryRead | 4_dz/interpret/Interpret.cpp:47-66 | the memory is untouched; the run stops exactly when the opcode is 83 and the address register points past the memory; an opcode other than 83 changes nothing |
| Semantics.MemoryWrite | 4_dz/interpret/Interpret.cpp:69-89 | the registers are untouched; an opcode other than 53 changes nothing |
| Semantics.BitwiseOr | 4_dz/interpret/Interpret.cpp:92-111 | the memory is untouched; an opcode other than 74 changes nothing |
| Semantics.Step | 4_dz/interpret/Interpret.cpp:125-141 | dispatch never writes a register above R7; only MEMORY_READ stops the run, without changing the machine; an opcode other than 195, 83, 53 and 74 changes no register and no memory cell |
| Semantics.Execute | 4_dz/interpret/Interpret.cpp:125-145 | the run keeps the machine's shape and never writes a register above R7 |
| Semantics.DumpEntries | 4_dz/interpret/Interpret.cpp:149-157 | the dump holds the cells from start to min(end, 1023), each with its own index |
| Interpreter.Interpret.constructor | 4_dz/interpret/Interpret.cpp:115-147 | the machine after the constructor is the run of the whole file from zero, and the result file holds the requested range of it |
| Interpreter.Interpret.Run | 4_dz/interpret/Interpret.cpp:125-145 | the main loop leaves the machine that Execute computes |
| Interpreter.Interpret.ReadBitset | 4_dz/interpret/Interpret.cpp:17-27 | reads up to six bytes and builds the word FromBytes describes |
| Interpreter.Interpret.LoadConstantFromCode | 4_dz/interpret/Interpret.cpp:30-44 | updates the arrays as Semantics.LoadConstant says |
| Interpreter.Interpret.MemoryReadFromCode | 4_dz/interpret/Interpret.cpp:47-66 | updates the arrays as Semantics.MemoryRead says, and reports an address outside the memory |
| Interpreter.Interpret.MemoryWriteFromCode | 4_dz/interpret/Interpret.cpp:69-89 | updates the arrays as Semantics.MemoryWrite says |
| Interpreter.Interpret.BitwiseOrFromCode | 4_dz/interpret/Interpret.cpp:92-111 | updates the arrays as Semantics.BitwiseOr says |
| Interpreter.Interpret.SaveMemoryToYaml | 4_dz/interpret/Interpret.cpp:149-157 | the entries written are Dump of the memory |
| Agreement.LoadConstantDecoded | 4_dz/interpret/Interpret.cpp:30-44 | an assembled LOAD_CONSTANT loads c mod 2^24 into register b mod 8 |
| Agreement.LoadConstantWidths | 4_dz/assemble/Assemble.cpp:20-21 | 2^24 survives in the 26-bit field but is loaded as 0 |
| Agreement.MemoryReadDecoded | 4_dz/interpret/Interpret.cpp:47-66 | an assembled MEMORY_READ copies the addressed cell, or stops the run on an address past the memory |
| Agreement.MemoryWriteDecoded | 4_dz/interpret/Interpret.cpp:69-89 | an assembled MEMORY_WRITE stores at the base register plus c mod 2^9, wrapping at 2^32; an address past the memory changes nothing |
| Agreement.MemoryWriteWraps | 4_dz/interpret/Interpret.cpp:80-85 | base 0xFFFFFFFF plus offset 1 writes cell 0 |
| Agreement.BitwiseOrDecoded | 4_dz/interpret/Interpret.cpp:92-111 | an assembled OR reads the cell at c mod 2^21, and an address past the memory changes nothing |
| Agreement.BitwiseOrWidths | 4_dz/assemble/Assemble.cpp:64-65 | address 2^21 survives in the 27-bit field but reads cell 0 |
| Agreement.ExecuteWord | 4_dz/interpret/Interpret.cpp:125-141 | a written word is read back whole and executed before the rest of the file |
| Agreement.ShortLastWord | 4_dz/interpret/Interpret.cpp:20-25 | a short last word runs as if padded with zero bytes |
| Agreement.RunProgram | 4_dz/assemble/Assemble.cpp:85-233 | a program's statement-by-statement effect keeps the machine's shape |
| Agreement.AssembleThenExecute | 4_dz/interpret/Interpret.cpp:125-145 | interpreting an assembled binary does what its statements say, in order |
| Visualizer.ParseConfig | dependency_visualizer/visualizer.py:26-37 | the four keys, each mapped to its argument |
| Visualizer.SplitLines | dependency_visualizer/visualizer.py:89 | at least one piece, and no piece holds a newline |
| Visualizer.SplitJoin | dependency_visualizer/visualizer.py:89 | joining the pieces with newlines gives the text back |
| Visualizer.JoinSplit | dependency_visualizer/visualizer.py:89 | splitting joined newline-free lines gives the lines back |
| Visualizer.SplitAfterLine | dependency_visualizer/visualizer.py:89 | a line ended by a newline is split off first |
| Visualizer.LastIndexOf | dependency_visualizer/visualizer.py:99 | the position of the last space, or the length when there is none |
| Visualizer.RSplitHead | dependency_visualizer/visualizer.py:99-100 | `rsplit(' ', 2)[0]` is a prefix of the text |
| Visualizer.RSplitHeadCuts | dependency_visualizer/visualizer.py:99-100 | the cut-off tail holds min(n, spaces) spaces and starts at a space |
| Visualizer.RSplitLastField | dependency_visualizer/visualizer.py:99 | rsplit cuts off a last field that has no space |
| Visualizer.AuthorFields | dependency_visualizer/visualizer.py:95-101 | `author NAME STAMP ZONE` gives NAME, spaces in NAME included |
| Visualizer.ParentsAppend | dependency_visualizer/visualizer.py:92-94 | the parents of two runs of lines are concatenated in order |
| Visualizer.ParentsOnly | dependency_visualizer/visualizer.py:93-94 | with a single `parent ` line, its parent is the only one |
| Visualizer.NoParents | dependency_visualizer/visualizer.py:90 | without `parent ` lines there are no parents |
| Visualizer.LastAuthorWins | dependency_visualizer/visualizer.py:95-101 | the author comes from the last `author ` line |
| Visualizer.NoAuthor | dependency_visualizer/visualizer.py:91 | without an `author ` line the author is empty |
| Visualizer.ParseCommit | dependency_visualizer/visualizer.py:88-106 | the node has the given sha1 and files, the parents of the `parent ` lines in order, and the author of the last `author ` line |
| Visualizer.EdgeLines | dependency_visualizer/visualizer.py:153-155 | one edge line per parent that is a key of the graph |
| Visualizer.NodesLines | dependency_visualizer/visualizer.py:150-155 | one node line per item plus its edge lines |
| Visualizer.HeaderLines | dependency_visualizer/visualizer.py:145-148 | the header is four lines |
| Visualizer.DotLines | dependency_visualizer/visualizer.py:145-157 | the text starts with the header and ends with `}`, and has 5 + nodes + edges-to-keys lines; an empty graph is header and footer only |
| Visualizer.GenerateDot | dependency_visualizer/visualizer.py:135-157 | the loops build exactly Dot(graph) |
| Visualizer.AppendEdges | dependency_visualizer/visualizer.py:153-155 | the inner loop appends the edge lines of the parents that are keys, in order |
| Visualizer.ParseCommitTest | dependency_visualizer/tests.py:38-52 | the test commit has parent `abcdef` and author `John Doe <john@example.com>` |
| Visualizer.GenerateDotTest | dependency_visualizer/tests.py:85-100 | the test graph has no edge line, and the label holds the short sha1 and `file1.txt, file2.txt` |

## Left out

- File, console and stream I/O are not modelled. This covers reading the input and writing JSON, YAML, log, DOT and binary files, and `std::cerr`/`std::cout` and debug output. Byte streams and record lists stand in for the files.
- `std::stoi` and stream extraction (`infile >>`) are not modelled. Assembly lines arrive as the words extracted together with the numbers `stoi` would return for them. A line whose operands `stoi` cannot parse is therefore outside the model's input. The source rejects such a line: `stoi` throws `std::invalid_argument`, the first handler catches it, and assembly stops. Two examples are `MEMORY_READ R5, [4]`, where `stoi` gets the empty string (4_dz/assemble/Assemble.cpp:134), and `LOAD_CONSTANT R, #5`, where it gets `,` (4_dz/assemble/Assemble.cpp:98).
- The `catch (...)` branches are not modelled either. They are reached by `stoi` range errors and by `substr` throwing `std::out_of_range` on a word too short for its offset (4_dz/assemble/Assemble.cpp:208-210). In MEMORY_WRITE and OR they do not return.
- Assembly.CharAt: reading `s[s.size() - 1]` of an empty word is undefined behaviour in C++. It reads NUL here, which fails the check it is part of.
- Semantics.MemoryRead: a MEMORY_READ whose address register points past the memory reads out of bounds in C++ (undefined behaviour). The model stops the run there with ReadOutOfRange instead of guessing a value.
- Semantics.Step: `to_ulong()` is assumed to hold all 48 bits, as it does where `unsigned long` is 64 bits. With a 32-bit `unsigned long` it would throw for OR words with high bits set.
- ConfigValues.SortValue: `sort()` on a list of two or more lists is TypeError in the model, whereas Python sorts such lists lexicographically. A mix of ints and lists is TypeError in both.
- ConfigSyntax.Error: Python's IndexError messages are collapsed into one IndexError kind. This covers reading past the last token, popping an empty stack and indexing outside a list. Error messages are not modelled, only the exception kind and, for NameError and the tokenizer's SyntaxError, the name or character.
- ConfigParserClass.ConfigParser.Parse: after an error, the state of `position` and `variables` is not stated. The source discards the instance.
- The `main` functions are not modelled. Neither are the command-line parsing, `read_object`, `build_commit_graph`, `write_dot_file` and the Graphviz call of the visualizer: they are subprocess, GitPython and filesystem glue. The list of files of a commit is a parameter of ParseCommit.
- shell_emulator/emulator.py is not part of this model.
- Strings are sequences of characters with no encoding. `decode('utf-8', errors='replace')` of the commit text is not modelled.
