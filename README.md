# QASM to Intel-QS translator, modelled in Dafny

This project models the text translator in `parser_functions.py`. The translator turns an OpenQASM 2
circuit into a C++ program for the Intel Quantum Simulator (Intel-QS). It has three parts, and each one
is a Dafny module:

- `Translator` (`convert_gate.dfy`) models `convert_gate`. It maps one QASM instruction line to one
  Intel-QS call.
  - The gate family is chosen by the length of the first word only: more than two characters is a
    rotation, two is a controlled Pauli, and one is a Pauli, or the Hadamard for `h`.
  - The qubit text is taken from the second word.
  - In a rotation, `pi` in the angle is written `M_PI`.
- `Extractor` (`qasm_to_list.dfy`) models `qasm_to_list`. It reads the qubit count, as text, from the
  third line of the QASM text. Every later line becomes one call on the register `psi`, in order.
- `Assembler` (`create_cpp.dfy`) models the text assembly of `create_cpp` and the `split("&&&")` of
  `init_qasm`:
  - the qubit count and `;` are appended to template fragment 0;
  - a block of calls, starting with `"\n\n"` and with a newline after each call, is appended to
    fragment 2;
  - all fragments are then concatenated.

Three modules support them:

- `PyText` (`pytext.dfy`) defines the Python string built-ins these functions use: `split()`,
  `split(sep)`, `join`, `splitlines`, and `upper` on one character. `Find`, the search for the first
  occurrence of a separator, is what defines `split(sep)`; the source never calls `find` itself.
- `Scanners` (`scanners.dfy`) defines the two regular expressions (`\[(.*?)\]` and `q\[(\d+)\]`) and
  `replace("pi", "M_PI")`, each as a small scanner.
- `Outcomes` (`outcomes.dfy`) defines `Option`, `Result` and the error values.

Every failure of the Python code is an `IndexError` raised by a subscript that finds nothing. The model
gives each of those subscripts its own `Error` value, so `MissingAngle` is `parts[1]` at line 72.

`QasmToList` and `CreateCpp` are methods with the loops of the source. Each is proved equal to a
specification function (`ParseQasm`, `Program`), and the lemmas state what those functions promise.

The model follows what the code does. In particular, where a reader might expect otherwise:

- The qubit count stays text (line 50). The docstring at line 47 calls it an int.
- The calls go into fragment index 2 (line 118), which is the third fragment of the template.
- Any number of fragments from three up is accepted. Fragments after the third are copied unchanged.
  Fewer than three fails at `init_code[2]`.
- No gate name is rejected as unknown; the only failures are the subscripts that find nothing:
  - a long mnemonic without `(` (`swap`) fails at `parts[1]`;
  - any two-character mnemonic (`id`) becomes `ApplyCPauli` with its second letter upper-cased;
  - a blank line fails at `words[0]`.
- A rotation keeps the closing `)` of its mnemonic in the angle text, so the call ends in `));`.
- An upper-case one-letter `H` is not the Hadamard: it becomes `ApplyPauliH`.

## Model

| member | source | states |
|---|---|---|
| Translator.ConvertGate | parser_functions.py:61-86 | `convert_gate`: `split()` of the line, then the family branches; its contract is stated by ConvertGateShape, ConvertGateFails, RotationCall, ControlledPauliCall, PauliCall, HadamardCall and IgnoresExtraWords |
| Translator.ConvertWords | parser_functions.py:69-86 | The branches after `words = line.split()`, failing in the order the source subscripts; stated by RotationFails, MissingOperandFails and the per-family lemmas |
| Translator.AngleText | parser_functions.py:69-72 | `split("(")[1]` of the mnemonic; SplitParen ties it to `Split`, and RotationKeepsCloseParen shows it keeps the final ')' |
| Translator.Call | parser_functions.py:74-84 | The f-string template `<register>.Apply<kind>(<args>);` shared by the four families; CallShape and CallIsOneLine state its form |
| Translator.RotationCall | parser_functions.py:69-74 | A rotation line gives `register.ApplyRotation<upper(second letter)>(<bracket text>, <angle after the first '(' with pi as M_PI>);` |
| Translator.RotationKeepsCloseParen | parser_functions.py:69-74 | For `name(angle) operand`, the angle text keeps the closing ')', so the call's arguments end in `)` and the call in `));` |
| Translator.ControlledPauliCall | parser_functions.py:76-78 | `xy q[d0],q[d1],...;` gives `register.ApplyCPauli<upper(y)>(d0,d1,...);`: the indices in order, joined by "," |
| Translator.ControlledPauliWithoutIndices | parser_functions.py:76-78 | A two-character gate whose operand has no "q[" is still emitted, with an empty argument list |
| Translator.PauliCall | parser_functions.py:79-82 | A one-character mnemonic other than `h` gives `register.ApplyPauli<upper(letter)>(<text between the first '[' and the next ']'>);` |
| Translator.HadamardCall | parser_functions.py:80-84 | The mnemonic `h` gives `register.ApplyHadamard(<bracket text>);` |
| Translator.CallShape | parser_functions.py:74-84 | Every call template starts with the register name and ".Apply" and ends with ");" |
| Translator.ConvertGateShape | parser_functions.py:68-86 | Every successful translation starts with `register + ".Apply"` and ends with ");" |
| Translator.ConvertGateFails | parser_functions.py:68-80 | Translation fails exactly when: there is no word; or a long mnemonic lacks '(', has fewer than two characters before it, or lacks an operand with "[...]"; or a short mnemonic lacks its operand or the "[...]" it needs |
| Translator.RotationFails | parser_functions.py:69-74 | The rotation case of the failure condition, on the words of the line |
| Translator.BlankLineFails | parser_functions.py:68-69 | An empty or all-whitespace line fails at `words[0]` |
| Translator.LongNameWithoutParenFails | parser_functions.py:69-72 | A mnemonic of three or more characters without '(' (such as `swap`) fails at `parts[1]` |
| Translator.MissingOperandFails | parser_functions.py:71-80 | A line with one word fails at `words[1]`, unless an earlier subscript already failed |
| Translator.IgnoresExtraWords | parser_functions.py:68-84 | Words after the second do not change the result |
| Translator.CallIsOneLine | parser_functions.py:68-86 | With a one-line register name, every call is one line, so the calls can be written one per line |
| Translator.SplitParen | parser_functions.py:69-72 | `split("(")` of a mnemonic with '(' gives the text before it and the angle text |
| Scanners.Bracketed | parser_functions.py:73 | `re.findall(r'\[(.*?)\]', w)[0]` or no match; BracketedIsBetween equates it with the search-based BetweenFirst, BracketedNoClose and BracketedChars bound it |
| Scanners.SubstitutePi | parser_functions.py:72 | `replace("pi", "M_PI")`; SubstitutePiLeavesNoPi, RestoreSubstitutePi and SubstitutePiChars state what it changes and what it keeps |
| Scanners.BracketedIsBetween | parser_functions.py:73 | On a word (no newline), the leftmost match of `\[(.*?)\]` is the text between the first '[' and the next ']' |
| Scanners.BracketedChars | parser_functions.py:73 | The bracket text is made of characters of the operand |
| Scanners.BetweenFirstOf | parser_functions.py:73 | `pre[q]post`, with no '[' in `pre` and no ']' in `q`, yields `q` |
| Scanners.BracketedNoClose | parser_functions.py:73 | With no ']' in the word there is no match, so `findall(...)[0]` fails |
| Scanners.CloseAt | parser_functions.py:73 | The lazy group ends at a ']' with no newline before it |
| Scanners.QubitIndices | parser_functions.py:77 | Every group of `q\[(\d+)\]` is a non-empty run of digits; QubitIndicesAll states which runs are found |
| Scanners.QubitIndicesAll | parser_functions.py:77 | On any operand, a digit run is found exactly when `q[<run>]` occurs somewhere in it (with `RefAt`), whatever surrounds it |
| Scanners.QubitIndicesOfOperands | parser_functions.py:77 | The indices of `q[d0],q[d1],...;` are `d0, d1, ...`, in order |
| Scanners.QubitIndicesRef | parser_functions.py:77 | A reference `q[<digits>]` is one match, and scanning resumes after its ']' |
| Scanners.QubitIndicesNone | parser_functions.py:77 | A text without "q[" has no match |
| Scanners.SubstitutePiLeavesNoPi | parser_functions.py:72 | No "pi" is left in the substituted angle |
| Scanners.SubstitutedNoPi | parser_functions.py:72 | No 'p' is followed by 'i' in the substituted angle |
| Scanners.RestoreSubstitutePi | parser_functions.py:72 | Writing "M_PI" back as "pi" restores the angle when it had no "M_PI" of its own, so nothing but "pi" changed |
| Scanners.SubstitutePiChars | parser_functions.py:72 | The substitution brings in no character but those of "M_PI" |
| Scanners.SubstitutePiSnoc | parser_functions.py:72 | A final character other than 'i' is kept as it is |
| PyText.Split | parser_functions.py:97 | `split(sep)`: at least one piece; JoinSplit, SplitJoin and SplitAfterPrefix make it the inverse of `Join` |
| PyText.UpperChar | parser_functions.py:74-82 | ASCII `upper()` of one character; its contract is stated by UpperCharCapital |
| PyText.UpperCharCapital | parser_functions.py:74-82 | A lower-case letter becomes the capital at its place in the alphabet, any other character is kept, and no lower-case letter is left |
| PyText.Join | parser_functions.py:77 | `sep.join(pieces)`; JoinSplit and SplitJoin make it the inverse of `Split`, and JoinLength gives its length |
| PyText.Concat | parser_functions.py:120-122 | The text the `cpp_code += section` loop builds; ConcatAppend and ConcatUpdate state it |
| PyText.JoinLines | parser_functions.py:114-116 | Each call followed by "\n", as the `gates += ...` loop appends them; JoinLinesSnoc and SplitJoinLines state it |
| PyText.Words | parser_functions.py:68 | Every piece `split()` yields is non-empty and has no whitespace |
| PyText.WordsAppend | parser_functions.py:68 | The words of `a + " " + b` are the words of `a` followed by those of `b` |
| PyText.WordsOfWord | parser_functions.py:68 | A single word splits into itself |
| PyText.WordsOfBlank | parser_functions.py:68 | A blank text has no words |
| PyText.Find | parser_functions.py:50 | The search that defines `split(sep)`: a non-negative result is an occurrence of the separator |
| PyText.FindIsFirst | parser_functions.py:50 | No occurrence comes before the one found, and there is none when the result is -1 |
| PyText.JoinSplit | parser_functions.py:97 | Joining the pieces of `split(sep)` with `sep` gives back the text |
| PyText.SplitJoin | parser_functions.py:97 | Splitting a join of separator-free pieces gives back the pieces |
| PyText.SplitAfterPrefix | parser_functions.py:50 | The first piece is the text before the first separator |
| PyText.SplitLines | parser_functions.py:49 | No line from `splitlines()` contains a line boundary |
| PyText.SplitJoinLines | parser_functions.py:49 | One-line texts each followed by "\n" split back into the same lines |
| PyText.JoinLinesSnoc | parser_functions.py:114-116 | Adding a call to the block adds the call and "\n" at its end |
| PyText.ConcatAppend | parser_functions.py:120-122 | Concatenating two lists of fragments gives the first's text followed by the second's |
| PyText.JoinLength | parser_functions.py:97 | A join is as long as its pieces plus one separator between each two |
| Extractor.QubitCount | parser_functions.py:50 | `split("qreg q[")[1].split("]")[0]` of line 3, as text; QubitCountFails and QubitCountOf state its failure and its value |
| Extractor.ParseQasm | parser_functions.py:42-58 | The function QasmToList is proved equal to; ParseQasmFails, ParseQasmShape and ParseQasmOfLines state what it promises |
| Extractor.Collect | parser_functions.py:53-56 | The list the `gate_list.append` loop builds, or the first error; CollectOk, CollectValues, CollectFirstError, CollectErrorFrom and CollectKeepsError state it |
| Extractor.TranslateAll | parser_functions.py:52-56 | `convert_gate(line, "psi")` of each gate line, collected; TranslateAllOk, TranslateAllValues and TranslateAllFirstError state it |
| Extractor.QubitCountFails | parser_functions.py:50 | Reading the count fails exactly when the third line has no "qreg q[" |
| Extractor.QubitCountOf | parser_functions.py:50 | When `qreg q[<n>]` is the first "qreg q[" of the line and `n` has no 'q' or ']', the count read is `n`, kept as text |
| Extractor.CollectOk | parser_functions.py:53-56 | The loop builds a list exactly when every call succeeds |
| Extractor.CollectValues | parser_functions.py:53-56 | A built list holds one value per call, in order |
| Extractor.CollectFirstError | parser_functions.py:53-56 | The first failing call decides the error, and no partial list survives |
| Extractor.CollectErrorFrom | parser_functions.py:53-56 | The error reported is the error of one of the calls |
| Extractor.CollectKeepsError | parser_functions.py:53-56 | Once a prefix fails, the whole loop fails with the same error |
| Extractor.TranslateAllOk | parser_functions.py:52-56 | The gate list is built exactly when every gate line translates |
| Extractor.TranslateAllValues | parser_functions.py:52-56 | Element `i` of the gate list is the translation of gate line `i` |
| Extractor.TranslateAllFirstError | parser_functions.py:52-56 | The first line that fails decides the error |
| Extractor.TranslateAllErrors | parser_functions.py:54-56 | A gate-line failure is never a header error |
| Extractor.QasmToList | parser_functions.py:42-58 | The loop-based method returns exactly `ParseQasm(code)` |
| Extractor.ParseQasmFails | parser_functions.py:49-56 | Which error, in order: fewer than three lines, then no "qreg q[" on line 3, then any gate line that fails |
| Extractor.BodyFails | parser_functions.py:52-56 | The gate lines fail exactly when one of them does |
| Extractor.ParseQasmShape | parser_functions.py:49-58 | On success the count comes from line 3, there are `|lines| - 3` calls, and call `i` is `convert_gate(lines[i + 3], "psi")` |
| Extractor.ParseQasmOfLines | parser_functions.py:49-58 | From two header lines, `qreg q[<n>];` and gate lines, the count `n` and the translated gate lines are read back |
| Extractor.ParseQasmOfSplit | parser_functions.py:50-58 | With the lines known, the result is the count of line 3 and the translations of the rest |
| Assembler.Program | parser_functions.py:108-122 | The text `create_cpp` writes, or `MissingFragment`; TooFewFragments, ProgramLayout, ProgramOfFragments and ProgramLength state it |
| Assembler.GateBlock | parser_functions.py:114-116 | `"\n\n"` followed by each call and a newline; GateBlockLines reads it back line by line, and CreateCpp's first loop builds it |
| Assembler.InitQasm | parser_functions.py:97 | `split("&&&")` gives at least one fragment, and the fragments joined with "&&&" give back the template |
| Assembler.CreateCpp | parser_functions.py:108-122 | The method that updates fragments 0 and 2 in place and accumulates the output returns exactly `Program(content, circuit)` |
| Assembler.TooFewFragments | parser_functions.py:97-118 | The assembly fails exactly when the template has fewer than two "&&&" markers |
| Assembler.ProgramLayout | parser_functions.py:112-122 | The output is fragment 0 + count + ";" + fragment 1 + fragment 2 + "\n\n" + one call and "\n" per gate + the later fragments, unchanged and in order |
| Assembler.ProgramOfFragments | parser_functions.py:112-122 | The same layout, for fragments known to come from the template |
| Assembler.ProgramLength | parser_functions.py:112-122 | The output length is the template length minus the removed markers, plus the count and ";", plus the block of calls |
| Assembler.ConcatUpdate | parser_functions.py:112-118 | Appending to one fragment lengthens the output by as much |
| Assembler.GateBlockLines | parser_functions.py:114-116 | The block of calls reads back as two empty lines, then one call per line, in order |

## Left out

- `cod_qasm` is not modelled. It calls the Qiskit library (`transpile`, `.qasm()`), which is not part
  of this model.
- File reading and writing are not modelled: `create_qasm_file`, `import_qasm`, the read in
  `init_qasm` and the write in `create_cpp`. The `print` in `create_cpp` is not modelled either. The
  template text that `init_qasm` reads is a parameter of `InitQasm`, `Program` and `CreateCpp`.
- `translate_from_qasm` and `translate_from_qiskit` are not modelled. They only chain the modelled
  functions with I/O and Qiskit.
- `qc.cpp` is a sample output, not logic. Its Hadamard lines (`psi.ApplyHadamard(0);`) are what
  `HadamardCall` gives for `h q[0];`.
- Only the three patterns the code uses are modelled, each as a scanner. General regular expressions
  are not.
- PyText.UpperChar: `upper()` is modelled for ASCII letters only. Python also upper-cases other
  letters, and some of them to more than one character.
- Scanners.QubitIndicesAll: for an arbitrary operand it states which digit runs are found, not how
  many times or in what order. Order and repetition are proved for operands of the form
  `q[d0],q[d1],...;` (QubitIndicesOfOperands).
- Scanners.QubitIndices: `\d` is modelled as the ASCII digits. Python's `\d` also matches other Unicode
  decimal digits.
- PyText.Words: the whitespace set is the fixed list of `str.isspace` characters in `IsSpace`.
- Scanners.BracketedIsBetween: it is stated for texts without a newline. Every word that `split()`
  yields is such a text, and the regex's `.` does not match a newline.
- The Python exceptions are not modelled as exceptions. Each is an `Err` value naming the subscript
  that fails.
