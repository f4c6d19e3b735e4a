/** `convert_gate`: one QASM instruction line to one Intel-QS call.

    The gate family is chosen by the length of the first word alone:
    longer than two characters is a rotation, exactly two a controlled
    Pauli, one a Pauli (or the Hadamard for `h`). */
module Translator {
  import opened Outcomes
  import opened PyText
  import opened Scanners

  /** The text every branch emits, `f"{register}.Apply{kind}({args});"`. */
  function Call(register: string, kind: string, args: string): string
  {
    register + ".Apply" + kind + "(" + args + ");"
  }

  /** The call text for one instruction line, addressed to `register`, or
      the subscript that fails. */
  function ConvertGate(line: string, register: string): Result<string>
  {
    ConvertWords(Words(line), register)
  }

  /** The body of `convert_gate` after `words = line.split()`; the checks come
      in the order the source evaluates them. */
  function ConvertWords(words: seq<string>, register: string): Result<string>
    requires forall i :: 0 <= i < |words| ==> IsWord(words[i])
  {
    if |words| == 0 then Err(EmptyInstruction)
    else
      assert IsWord(words[0]);
      var parts := Split(words[0], "(");
      if |words[0]| > 2 then
        if |parts| < 2 then Err(MissingAngle)
        else
          var angle := SubstitutePi(parts[1]);
          if |words| < 2 then Err(MissingOperand)
          else match Bracketed(words[1])
            case None => Err(MissingBracketedIndex)
            case Some(qubits) =>
              if |parts[0]| < 2 then Err(ShortRotationName)
              else Ok(Call(register, "Rotation" + [UpperChar(parts[0][1])], qubits + ", " + angle))
      else if |words[0]| == 2 then
        if |words| < 2 then Err(MissingOperand)
        else Ok(Call(register, "CPauli" + [UpperChar(words[0][1])], Join(QubitIndices(words[1]), ",")))
      else if |words| < 2 then Err(MissingOperand)
      else match Bracketed(words[1])
        case None => Err(MissingBracketedIndex)
        case Some(qubits) =>
          if words[0] != "h" then Ok(Call(register, "Pauli" + [UpperChar(words[0][0])], qubits))
          else Ok(Call(register, "Hadamard", qubits))
  }

  /** A word contains no newline. */
  lemma WordHasNoNewline(w: string)
    requires IsWord(w)
    ensures '\n' !in w
  {
  }

  /** The text of the angle: after the first '(' of the mnemonic and up to a
      second '(' if there is one (`split("(")[1]`). */
  function AngleText(mnemonic: string): string
  {
    var i := Find(mnemonic, "(");
    if i < 0 then "" else
    var rest := mnemonic[i + 1..];
    var j := Find(rest, "(");
    if j < 0 then rest else rest[..j]
  }

  /** How `split("(")` divides a mnemonic that has a '(' at index `i`. */
  lemma {:induction false} SplitParen(m: string)
    requires Find(m, "(") >= 0
    ensures |Split(m, "(")| >= 2
    ensures Split(m, "(")[0] == m[..Find(m, "(")]
    ensures Split(m, "(")[1] == AngleText(m)
  {
    var i := Find(m, "(");
    var rest := m[i + 1..];
    assert Split(m, "(") == [m[..i]] + Split(rest, "(");
    var j := Find(rest, "(");
    if j >= 0 {
      assert Split(rest, "(") == [rest[..j]] + Split(rest[j + 1..], "(");
    }
  }

  /** Every call starts with the register name and ".Apply" and ends with ");". */
  lemma CallShape(register: string, kind: string, args: string)
    ensures var c := Call(register, kind, args);
      |c| >= |register| + 8 && c[..|register| + 6] == register + ".Apply" && c[|c| - 2..] == ");"
  {
    var c := Call(register, kind, args);
    assert c == (register + ".Apply") + (kind + "(" + args + ");");
    assert c == (register + ".Apply" + kind + "(" + args) + ");";
  }

  /** Whatever the gate, a translated line reads `<register>.Apply...);`. */
  lemma ConvertGateShape(line: string, register: string)
    requires ConvertGate(line, register).Ok?
    ensures var c := ConvertGate(line, register).value;
      |c| >= |register| + 8 && c[..|register| + 6] == register + ".Apply" && c[|c| - 2..] == ");"
  {
    var ws := Words(line);
    assert IsWord(ws[0]) && IsWord(ws[1]);
    var parts := Split(ws[0], "(");
    if |ws[0]| > 2 {
      CallShape(register, "Rotation" + [UpperChar(parts[0][1])],
                Bracketed(ws[1]).value + ", " + SubstitutePi(parts[1]));
    } else if |ws[0]| == 2 {
      CallShape(register, "CPauli" + [UpperChar(ws[0][1])], Join(QubitIndices(ws[1]), ","));
    } else if ws[0] != "h" {
      CallShape(register, "Pauli" + [UpperChar(ws[0][0])], Bracketed(ws[1]).value);
    } else {
      CallShape(register, "Hadamard", Bracketed(ws[1]).value);
    }
  }

  /** Rotation (`rx(pi/2) q[0];`): the axis is the upper-cased second letter,
      the qubit is the text between the first '[' and the next ']' of the
      operand, and the angle is the text after the first '(' (closing ')'
      included) with "pi" written "M_PI". */
  lemma RotationCall(line: string, register: string, qubit: string)
    requires |Words(line)| >= 2 && |Words(line)[0]| > 2
    requires Find(Words(line)[0], "(") >= 2
    requires BetweenFirst(Words(line)[1], '[', ']') == Some(qubit)
    ensures var w := Words(line)[0];
      ConvertGate(line, register) ==
        Ok(Call(register, "Rotation" + [UpperChar(w[1])], qubit + ", " + SubstitutePi(AngleText(w))))
  {
    var ws := Words(line);
    SplitParen(ws[0]);
    WordHasNoNewline(ws[1]);
    BracketedIsBetween(ws[1]);
    assert Split(ws[0], "(")[0][1] == ws[0][1];
  }

  /** Controlled Pauli (`cx q[1],q[2];`): the axis is the upper-cased second
      letter, and the qubit indices are listed in order, joined by ",". */
  lemma ControlledPauliCall(mnemonic: string, qubits: seq<string>, register: string)
    requires IsWord(mnemonic) && |mnemonic| == 2
    requires |qubits| >= 1 && forall i :: 0 <= i < |qubits| ==> IsDigits(qubits[i])
    ensures ConvertGate(mnemonic + " " + Operands(qubits) + ";", register) ==
      Ok(Call(register, "CPauli" + [UpperChar(mnemonic[1])], Join(qubits, ",")))
  {
    var operand := Operands(qubits) + ";";
    OperandIsWord(qubits);
    WordsOfPair(mnemonic, operand);
    QubitIndicesOfOperands(qubits);
    var line := mnemonic + " " + operand;
    assert line == mnemonic + " " + Operands(qubits) + ";";
    assert Words(line) == [mnemonic, operand];
    ControlledPauliWords([mnemonic, operand], register);
  }

  /** The controlled-Pauli branch on the words of a line. */
  lemma ControlledPauliWords(ws: seq<string>, register: string)
    requires forall i :: 0 <= i < |ws| ==> IsWord(ws[i])
    requires |ws| >= 2 && |ws[0]| == 2
    ensures ConvertWords(ws, register) ==
      Ok(Call(register, "CPauli" + [UpperChar(ws[0][1])], Join(QubitIndices(ws[1]), ",")))
  {
  }

  lemma WordsOfPair(a: string, b: string)
    requires IsWord(a) && IsWord(b)
    ensures Words(a + " " + b) == [a, b]
  {
    WordsAppend(a, b);
    WordsOfWord(a);
    WordsOfWord(b);
  }

  lemma OperandIsWord(qubits: seq<string>)
    requires forall i :: 0 <= i < |qubits| ==> IsDigits(qubits[i])
    ensures IsWord(Operands(qubits) + ";")
  {
    var operand := Operands(qubits) + ";";
    OperandsChars(qubits);
    assert forall c :: c in operand ==> c == ';' || c in Operands(qubits);
  }

  /** A two-character gate whose operand has no "q[" is still emitted, with an
      empty argument list. */
  lemma ControlledPauliWithoutIndices(line: string, register: string)
    requires |Words(line)| >= 2 && |Words(line)[0]| == 2
    requires Find(Words(line)[1], "q[") < 0
    ensures ConvertGate(line, register) == Ok(Call(register, "CPauli" + [UpperChar(Words(line)[0][1])], ""))
  {
    QubitIndicesNone(Words(line)[1]);
  }

  /** Pauli (`x q[0];`): any one-character mnemonic other than `h` becomes
      `ApplyPauli` with that letter upper-cased. */
  lemma PauliCall(line: string, register: string, qubit: string)
    requires |Words(line)| >= 2 && |Words(line)[0]| == 1 && Words(line)[0] != "h"
    requires BetweenFirst(Words(line)[1], '[', ']') == Some(qubit)
    ensures ConvertGate(line, register) ==
      Ok(Call(register, "Pauli" + [UpperChar(Words(line)[0][0])], qubit))
  {
    WordHasNoNewline(Words(line)[1]);
    BracketedIsBetween(Words(line)[1]);
  }

  /** Hadamard (`h q[3];`): the one irregular name, never `ApplyPauliH`. */
  lemma HadamardCall(line: string, register: string, qubit: string)
    requires |Words(line)| >= 2 && Words(line)[0] == "h"
    requires BetweenFirst(Words(line)[1], '[', ']') == Some(qubit)
    ensures ConvertGate(line, register) == Ok(Call(register, "Hadamard", qubit))
  {
    WordHasNoNewline(Words(line)[1]);
    BracketedIsBetween(Words(line)[1]);
  }

  /** Exactly when `convert_gate` raises, stated by search over the first two
      words: no word; a long mnemonic without '(' or with fewer than two
      characters before it; a missing operand (except that nothing else is
      needed by a two-character gate); or an operand with no "[...]". */
  lemma ConvertGateFails(line: string, register: string)
    ensures var ws := Words(line);
      ConvertGate(line, register).Err? <==>
        |ws| == 0 ||
        (|ws[0]| > 2 && (Find(ws[0], "(") < 0 || |ws| < 2 ||
                         BetweenFirst(ws[1], '[', ']').None? || Find(ws[0], "(") < 2)) ||
        (|ws[0]| == 2 && |ws| < 2) ||
        (|ws[0]| == 1 && (|ws| < 2 || BetweenFirst(ws[1], '[', ']').None?))
  {
    var ws := Words(line);
    if |ws| > 0 {
      assert IsWord(ws[0]);
      if |ws| >= 2 {
        assert IsWord(ws[1]);
        WordHasNoNewline(ws[1]);
        BracketedIsBetween(ws[1]);
      }
      if |ws[0]| > 2 {
        RotationFails(ws, register);
      }
    }
  }

  /** The rotation branch of `ConvertGateFails`. */
  lemma RotationFails(ws: seq<string>, register: string)
    requires forall i :: 0 <= i < |ws| ==> IsWord(ws[i])
    requires |ws| >= 1 && |ws[0]| > 2
    requires |ws| >= 2 ==> Bracketed(ws[1]) == BetweenFirst(ws[1], '[', ']')
    ensures ConvertWords(ws, register).Err? <==>
      Find(ws[0], "(") < 0 || |ws| < 2 || BetweenFirst(ws[1], '[', ']').None? || Find(ws[0], "(") < 2
  {
    if Find(ws[0], "(") >= 0 {
      SplitParen(ws[0]);
    } else {
      assert Split(ws[0], "(") == [ws[0]];
    }
  }

  /** A blank line fails at `words[0]`. */
  lemma BlankLineFails(line: string, register: string)
    requires forall c :: c in line ==> IsSpace(c)
    ensures ConvertGate(line, register) == Err(EmptyInstruction)
  {
    WordsOfBlank(line);
  }

  /** A mnemonic of three or more characters without '(' (`swap`, say) fails at
      `parts[1]`; there is no separate "unrecognised gate" error. */
  lemma LongNameWithoutParenFails(line: string, register: string)
    requires |Words(line)| >= 1 && |Words(line)[0]| > 2 && Find(Words(line)[0], "(") < 0
    ensures ConvertGate(line, register) == Err(MissingAngle)
  {
  }

  /** A gate that needs a "[...]" operand fails at `words[1]` when there is no
      second word. */
  lemma MissingOperandFails(line: string, register: string)
    requires |Words(line)| == 1
    requires |Words(line)[0]| <= 2 || Find(Words(line)[0], "(") >= 0
    ensures ConvertGate(line, register) == Err(MissingOperand)
  {
    if |Words(line)[0]| > 2 {
      SplitParen(Words(line)[0]);
    }
  }

  /** Only the first two words matter: further words change nothing. */
  lemma IgnoresExtraWords(line: string, extra: string, register: string)
    requires |Words(line)| >= 2
    ensures ConvertGate(line + " " + extra, register) == ConvertGate(line, register)
  {
    WordsAppend(line, extra);
    var ws := Words(line + " " + extra);
    assert ws[0] == Words(line)[0] && ws[1] == Words(line)[1];
  }

  /** With a one-line register name, every call is a single line, so the
      calls can be written one per line. */
  lemma CallIsOneLine(line: string, register: string)
    requires NoLineBreak(register)
    requires ConvertGate(line, register).Ok?
    ensures NoLineBreak(ConvertGate(line, register).value)
  {
    var ws := Words(line);
    assert IsWord(ws[0]) && IsWord(ws[1]);
    WordIsOneLine(ws[0]);
    WordIsOneLine(ws[1]);
    if |ws[0]| > 2 {
      RotationIsOneLine(ws, register);
    } else if |ws[0]| == 2 {
      ControlledPauliIsOneLine(ws, register);
    } else {
      PauliIsOneLine(ws, register);
    }
  }

  lemma PauliIsOneLine(ws: seq<string>, register: string)
    requires forall i :: 0 <= i < |ws| ==> IsWord(ws[i])
    requires |ws| >= 2 && |ws[0]| == 1
    requires NoLineBreak(register) && NoLineBreak(ws[0]) && NoLineBreak(ws[1])
    requires ConvertWords(ws, register).Ok?
    ensures NoLineBreak(ConvertWords(ws, register).value)
  {
    var q := Bracketed(ws[1]).value;
    BracketedIsOneLine(ws[1]);
    if ws[0] != "h" {
      KindIsOneLine("Pauli", ws[0][0]);
      CallOneLine(register, "Pauli" + [UpperChar(ws[0][0])], q);
    } else {
      CallOneLine(register, "Hadamard", q);
    }
  }

  lemma RotationIsOneLine(ws: seq<string>, register: string)
    requires forall i :: 0 <= i < |ws| ==> IsWord(ws[i])
    requires |ws| >= 2 && |ws[0]| > 2
    requires NoLineBreak(register) && NoLineBreak(ws[0]) && NoLineBreak(ws[1])
    requires ConvertWords(ws, register).Ok?
    ensures NoLineBreak(ConvertWords(ws, register).value)
  {
    SplitParen(ws[0]);
    AngleTextIsOneLine(ws[0]);
    var q := Bracketed(ws[1]).value;
    BracketedIsOneLine(ws[1]);
    var angle := SubstitutePi(AngleText(ws[0]));
    SubstitutePiChars(AngleText(ws[0]));
    assert NoLineBreak(angle);
    OneLineAppend(q, ", ");
    OneLineAppend(q + ", ", angle);
    assert Split(ws[0], "(")[0][1] == ws[0][1];
    KindIsOneLine("Rotation", ws[0][1]);
    CallOneLine(register, "Rotation" + [UpperChar(ws[0][1])], q + ", " + angle);
  }

  lemma ControlledPauliIsOneLine(ws: seq<string>, register: string)
    requires forall i :: 0 <= i < |ws| ==> IsWord(ws[i])
    requires |ws| >= 2 && |ws[0]| == 2
    requires NoLineBreak(register) && NoLineBreak(ws[0])
    ensures NoLineBreak(ConvertWords(ws, register).value)
  {
    JoinOfDigitsIsOneLine(QubitIndices(ws[1]));
    KindIsOneLine("CPauli", ws[0][1]);
    CallOneLine(register, "CPauli" + [UpperChar(ws[0][1])], Join(QubitIndices(ws[1]), ","));
  }

  lemma WordIsOneLine(w: string)
    requires IsWord(w)
    ensures NoLineBreak(w)
  {
  }

  lemma BracketedIsOneLine(w: string)
    requires NoLineBreak(w) && Bracketed(w).Some?
    ensures NoLineBreak(Bracketed(w).value)
  {
    BracketedChars(w);
  }

  /** A gate family name followed by an upper-cased letter of a one-line word. */
  lemma KindIsOneLine(family: string, c: char)
    requires NoLineBreak(family) && !IsLineBreak(c)
    ensures NoLineBreak(family + [UpperChar(c)])
  {
  }

  /** A call is one line when its register name, kind and arguments are. */
  lemma CallOneLine(register: string, kind: string, args: string)
    requires NoLineBreak(register) && NoLineBreak(kind) && NoLineBreak(args)
    ensures NoLineBreak(Call(register, kind, args))
  {
    OneLineAppend(register, ".Apply");
    OneLineAppend(register + ".Apply", kind);
    OneLineAppend(register + ".Apply" + kind, "(");
    OneLineAppend(register + ".Apply" + kind + "(", args);
    OneLineAppend(register + ".Apply" + kind + "(" + args, ");");
  }

  lemma OneLineAppend(a: string, b: string)
    requires NoLineBreak(a) && NoLineBreak(b)
    ensures NoLineBreak(a + b)
  {
  }

  lemma AngleTextIsOneLine(m: string)
    requires NoLineBreak(m)
    ensures NoLineBreak(AngleText(m))
  {
    var i := Find(m, "(");
    if i >= 0 {
      var rest := m[i + 1..];
      assert forall c :: c in rest ==> c in m;
      var j := Find(rest, "(");
      if j >= 0 {
        assert forall c :: c in rest[..j] ==> c in rest;
      }
    }
  }

  lemma {:induction false} JoinOfDigitsIsOneLine(ds: seq<string>)
    requires forall i :: 0 <= i < |ds| ==> IsDigits(ds[i])
    ensures NoLineBreak(Join(ds, ","))
    decreases |ds|
  {
    if |ds| > 1 {
      JoinOfDigitsIsOneLine(ds[1..]);
    }
    if |ds| > 0 {
      assert forall c :: c in ds[0] ==> IsDigit(c);
    }
  }

  /** The closing ')' of the mnemonic `name(angle)` stays in the angle text,
      so a rotation call always ends in "));" (`rx(pi/2) q[0];` gives
      `psi.ApplyRotationX(0, M_PI/2));`). */
  lemma RotationKeepsCloseParen(name: string, angle: string, operand: string, register: string)
    requires |name| >= 2 && '(' !in name && '(' !in angle
    requires IsWord(name + "(" + angle + ")") && IsWord(operand)
    requires BetweenFirst(operand, '[', ']').Some?
    ensures ConvertGate(name + "(" + angle + ")" + " " + operand, register) ==
      Ok(Call(register, "Rotation" + [UpperChar(name[1])],
              BetweenFirst(operand, '[', ']').value + ", " + SubstitutePi(angle) + ")"))
  {
    var m := name + "(" + angle + ")";
    WordsOfPair(m, operand);
    var rest := angle + ")";
    assert m == name + ['('] + rest;
    IndexOfAt(name, '(', rest);
    FindOneChar(m, '(');
    assert m[|name| + 1..] == rest;
    assert '(' !in rest;
    FindOneChar(rest, '(');
    assert AngleText(m) == rest;
    assert m[1] == name[1];
    SubstitutePiSnoc(angle, ')');
    var q := BetweenFirst(operand, '[', ']').value;
    RotationCall(m + " " + operand, register, q);
    assert q + ", " + SubstitutePi(rest) == q + ", " + SubstitutePi(angle) + ")";
  }
}
