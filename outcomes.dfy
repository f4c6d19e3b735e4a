/** Failure values of the translator.

    Every failure of the Python translator is an `IndexError` raised by a
    subscript that finds nothing; each variant below names the subscript
    that fails, so that a caller can tell the cases apart. */
module Outcomes {

  datatype Option<+T> = None | Some(value: T)

  datatype Error =
    | MissingHeaderLine        // qasm_lines[2]: the source text has fewer than three lines
    | MissingQregDeclaration   // split("qreg q[")[1]: line 3 declares no register
    | EmptyInstruction         // words[0]: the instruction line is empty or blank
    | MissingAngle             // parts[1]: a long mnemonic has no '('
    | MissingOperand           // words[1]: the line has no second word
    | MissingBracketedIndex    // findall(r'\[(.*?)\]', ...)[0]: no "[...]" in the operand
    | ShortRotationName        // parts[0][1]: fewer than two characters before the '('
    | MissingFragment          // init_code[2]: the template has fewer than three fragments

  datatype Result<+T> = Ok(value: T) | Err(error: Error)
}
