/** `qasm_to_list`: the QASM text to the list of Intel-QS calls and the
    qubit count. The first three lines are the header: the third declares
    the register, and every later line is one gate. */
module Extractor {
  import opened Outcomes
  import opened PyText
  import opened Translator

  /** The register every translated call addresses. */
  const Register: string := "psi"

  /** The pair `(gate_list, n_qubits)`; the count is the text of the
      declaration, never converted to a number. */
  datatype Circuit = Circuit(gates: seq<string>, qubitCount: string)

  /** `line.split("qreg q[")[1].split("]")[0]`. */
  function QubitCount(header: string): Result<string>
  {
    var parts := Split(header, "qreg q[");
    if |parts| < 2 then Err(MissingQregDeclaration) else Ok(Split(parts[1], "]")[0])
  }

  /** The count cannot be read exactly when the line has no "qreg q[". */
  lemma QubitCountFails(header: string)
    ensures QubitCount(header).Err? <==> Find(header, "qreg q[") < 0
  {
    var k := Find(header, "qreg q[");
    if k >= 0 {
      assert Split(header, "qreg q[") == [header[..k]] + Split(header[k + 7..], "qreg q[");
    }
  }

  /** The first field of a split is the text before the separator, when
      that text lacks the separator's first character. */
  lemma FirstField(a: string, sep: string, rest: string)
    requires |sep| > 0 && sep[0] !in a
    ensures Split(a + sep + rest, sep)[0] == a
  {
    SplitAfterPrefix(a, sep, rest);
  }

  /** A text that lacks the separator's first character stays at the front
      of the first field. */
  lemma FirstFieldKeepsPrefix(a: string, sep: string, rest: string)
    requires |sep| > 0 && sep[0] !in a
    ensures |Split(a + rest, sep)[0]| >= |a| && Split(a + rest, sep)[0][..|a|] == a
  {
    var s := a + rest;
    var j := Find(s, sep);
    if j >= 0 {
      forall k | 0 <= k < |a| ensures !Occurs(s, sep, k) {
        assert s[k] == a[k] && a[k] in a;
      }
      assert j >= |a|;
      assert s[..j][..|a|] == a;
    } else {
      assert s[..|a|] == a;
    }
  }

  /** The count is the text between the first "qreg q[" and the next "]":
      for a declaration `qreg q[<n>];` that is the first "qreg q[" of the
      line, and a count free of 'q' and ']' (a digit run, say), the count
      read back is `n`. */
  lemma QubitCountOf(pre: string, n: string, post: string)
    requires Find(pre + "qreg q[" + n + "]" + post, "qreg q[") == |pre|
    requires 'q' !in n && ']' !in n
    ensures QubitCount(pre + "qreg q[" + n + "]" + post) == Ok(n)
  {
    var s := pre + "qreg q[" + n + "]" + post;
    var u := n + "]" + post;
    assert s[|pre| + 7..] == u;
    assert Split(s, "qreg q[") == [s[..|pre|]] + Split(u, "qreg q[");
    CountField(n, post);
  }

  /** The text up to the next "qreg q[" still starts with the count. */
  lemma CountField(n: string, post: string)
    requires 'q' !in n && ']' !in n
    ensures Split(Split(n + "]" + post, "qreg q[")[0], "]")[0] == n
  {
    var head := Split(n + "]" + post, "qreg q[")[0];
    var a := n + "]";
    assert 'q' !in a;
    assert n + "]" + post == a + post;
    FirstFieldKeepsPrefix(a, "qreg q[", post);
    assert head == n + "]" + head[|a|..];
    FirstField(n, "]", head[|a|..]);
  }

  /** The results of the calls made one after another, all of them combined:
      every value in order, or the error of the first that fails. Defined on
      the last result, as the loop meets them. */
  function Collect(rs: seq<Result<string>>): Result<seq<string>>
    decreases |rs|
  {
    if |rs| == 0 then Ok([])
    else match Collect(rs[..|rs| - 1])
      case Err(e) => Err(e)
      case Ok(values) =>
        match rs[|rs| - 1]
        case Err(e) => Err(e)
        case Ok(v) => Ok(values + [v])
  }

  /** The combination succeeds exactly when every result does. */
  lemma {:induction false} CollectOk(rs: seq<Result<string>>)
    ensures Collect(rs).Ok? <==> forall i :: 0 <= i < |rs| ==> rs[i].Ok?
    decreases |rs|
  {
    if |rs| > 0 {
      var init := rs[..|rs| - 1];
      CollectOk(init);
      assert forall i :: 0 <= i < |init| ==> init[i] == rs[i];
    }
  }

  /** A successful combination holds every value, in order. */
  lemma {:induction false} CollectValues(rs: seq<Result<string>>)
    requires Collect(rs).Ok?
    ensures |Collect(rs).value| == |rs|
    ensures forall i :: 0 <= i < |rs| ==> rs[i] == Ok(Collect(rs).value[i])
    decreases |rs|
  {
    if |rs| > 0 {
      var init := rs[..|rs| - 1];
      CollectValues(init);
      assert forall i :: 0 <= i < |init| ==> init[i] == rs[i];
    }
  }

  /** The first failing result decides the error; no partial list survives. */
  lemma {:induction false} CollectFirstError(rs: seq<Result<string>>, i: nat)
    requires i < |rs| && rs[i].Err?
    requires forall j :: 0 <= j < i ==> rs[j].Ok?
    ensures Collect(rs) == Err(rs[i].error)
    decreases |rs|
  {
    var init := rs[..|rs| - 1];
    assert forall j :: 0 <= j < |init| ==> init[j] == rs[j];
    if i == |rs| - 1 {
      CollectOk(init);
    } else {
      CollectFirstError(init, i);
    }
  }

  /** A failed combination reports the error of one of its results. */
  lemma {:induction false} CollectErrorFrom(rs: seq<Result<string>>)
    ensures Collect(rs).Err? ==> exists i :: 0 <= i < |rs| && rs[i] == Err(Collect(rs).error)
    decreases |rs|
  {
    if |rs| > 0 {
      var init := rs[..|rs| - 1];
      CollectErrorFrom(init);
      if Collect(init).Err? {
        var i :| 0 <= i < |init| && init[i] == Err(Collect(init).error);
        assert rs[i] == init[i];
      }
    }
  }

  /** Once a prefix fails, the whole combination fails with the same error. */
  lemma {:induction false} CollectKeepsError(rs: seq<Result<string>>, n: nat)
    requires n <= |rs| && Collect(rs[..n]).Err?
    ensures Collect(rs) == Collect(rs[..n])
    decreases |rs| - n
  {
    if n < |rs| {
      var longer := rs[..n + 1];
      assert longer[..|longer| - 1] == rs[..n];
      CollectKeepsError(rs, n + 1);
    } else {
      assert rs[..n] == rs;
    }
  }

  /** `convert_gate(line, register)` for each line, in order. */
  function Translations(lines: seq<string>, register: string): (rs: seq<Result<string>>)
    ensures |rs| == |lines|
    ensures forall i :: 0 <= i < |lines| ==> rs[i] == ConvertGate(lines[i], register)
  {
    seq(|lines|, i requires 0 <= i < |lines| => ConvertGate(lines[i], register))
  }

  /** `[convert_gate(line, register) for line in lines]`, failing as the
      first line that fails. */
  function TranslateAll(lines: seq<string>, register: string): Result<seq<string>>
  {
    Collect(Translations(lines, register))
  }

  /** The list is built exactly when every line translates. */
  lemma TranslateAllOk(lines: seq<string>, register: string)
    ensures TranslateAll(lines, register).Ok? <==>
      forall i :: 0 <= i < |lines| ==> ConvertGate(lines[i], register).Ok?
  {
    CollectOk(Translations(lines, register));
  }

  /** A built list has one call per line, in the same order. */
  lemma TranslateAllValues(lines: seq<string>, register: string)
    requires TranslateAll(lines, register).Ok?
    ensures |TranslateAll(lines, register).value| == |lines|
    ensures forall i :: 0 <= i < |lines| ==>
      ConvertGate(lines[i], register) == Ok(TranslateAll(lines, register).value[i])
  {
    CollectValues(Translations(lines, register));
  }

  /** The first line that fails decides the error. */
  lemma TranslateAllFirstError(lines: seq<string>, register: string, i: nat)
    requires i < |lines| && ConvertGate(lines[i], register).Err?
    requires forall j :: 0 <= j < i ==> ConvertGate(lines[j], register).Ok?
    ensures TranslateAll(lines, register) == Err(ConvertGate(lines[i], register).error)
  {
    CollectFirstError(Translations(lines, register), i);
  }

  /** What `qasm_to_list` returns: the header is at least three lines, the
      third yields the count, and every later line yields one call. */
  function ParseQasm(code: string): Result<Circuit>
  {
    var lines := SplitLines(code);
    if |lines| < 3 then Err(MissingHeaderLine)
    else match QubitCount(lines[2])
      case Err(e) => Err(e)
      case Ok(n) =>
        match TranslateAll(lines[3..], Register)
        case Err(e) => Err(e)
        case Ok(gates) => Ok(Circuit(gates, n))
  }

  /** The loop of `qasm_to_list`: the calls are appended one line at a time. */
  method QasmToList(code: string) returns (r: Result<Circuit>)
    ensures r == ParseQasm(code)
  {
    var qasmLines := SplitLines(code);
    if |qasmLines| < 3 {
      return Err(MissingHeaderLine);
    }
    var count := QubitCount(qasmLines[2]);
    if count.Err? {
      return Err(count.error);
    }
    var body := qasmLines[3..];
    ghost var rs := Translations(body, Register);
    var gateList: seq<string> := [];
    for i := 0 to |body|
      invariant Collect(rs[..i]) == Ok(gateList)
    {
      assert rs[..i + 1][..i] == rs[..i];
      var gate := ConvertGate(body[i], Register);
      if gate.Err? {
        CollectKeepsError(rs, i + 1);
        return Err(gate.error);
      }
      gateList := gateList + [gate.value];
    }
    assert rs[..|body|] == rs;
    return Ok(Circuit(gateList, count.value));
  }

  /** Exactly when `qasm_to_list` fails, and with which error: a short text
      first, then a third line without "qreg q[", then the first gate line
      that cannot be translated. */
  lemma ParseQasmFails(code: string)
    ensures var lines := SplitLines(code);
      (|lines| < 3 <==> ParseQasm(code) == Err(MissingHeaderLine)) &&
      (|lines| >= 3 ==>
        (Find(lines[2], "qreg q[") < 0 <==> ParseQasm(code) == Err(MissingQregDeclaration)) &&
        (Find(lines[2], "qreg q[") >= 0 ==>
          (ParseQasm(code).Err? <==>
            exists i :: 3 <= i < |lines| && ConvertGate(lines[i], Register).Err?)))
  {
    var lines := SplitLines(code);
    if |lines| >= 3 {
      QubitCountFails(lines[2]);
      BodyFails(lines);
      TranslateAllErrors(lines[3..], Register);
    }
  }

  /** The gate lines fail exactly when one of them does. */
  lemma BodyFails(lines: seq<string>)
    requires |lines| >= 3
    ensures TranslateAll(lines[3..], Register).Err? <==>
      exists i :: 3 <= i < |lines| && ConvertGate(lines[i], Register).Err?
  {
    var body := lines[3..];
    TranslateAllOk(body, Register);
    if exists i :: 3 <= i < |lines| && ConvertGate(lines[i], Register).Err? {
      var i :| 3 <= i < |lines| && ConvertGate(lines[i], Register).Err?;
      assert body[i - 3] == lines[i];
    }
    if exists i :: 0 <= i < |body| && ConvertGate(body[i], Register).Err? {
      var i :| 0 <= i < |body| && ConvertGate(body[i], Register).Err?;
      assert body[i] == lines[i + 3];
    }
  }

  /** A gate error is one of the errors `convert_gate` raises, never a header error. */
  lemma TranslateAllErrors(lines: seq<string>, register: string)
    ensures TranslateAll(lines, register).Err? ==>
      TranslateAll(lines, register).error != MissingHeaderLine &&
      TranslateAll(lines, register).error != MissingQregDeclaration
  {
    var rs := Translations(lines, register);
    CollectErrorFrom(rs);
    if Collect(rs).Err? {
      var i :| 0 <= i < |rs| && rs[i] == Err(Collect(rs).error);
      ConvertGateErrors(lines[i], register);
    }
  }

  /** `convert_gate` never reports a header error. */
  lemma ConvertGateErrors(line: string, register: string)
    ensures ConvertGate(line, register).Err? ==>
      ConvertGate(line, register).error != MissingHeaderLine &&
      ConvertGate(line, register).error != MissingQregDeclaration
  {
  }

  /** On success, the count comes from line 3 and element `i` of the list is
      the translation of line `i + 3` for register `psi`. */
  lemma ParseQasmShape(code: string)
    requires ParseQasm(code).Ok?
    ensures var lines := SplitLines(code); var c := ParseQasm(code).value;
      |lines| >= 3 && QubitCount(lines[2]) == Ok(c.qubitCount) &&
      |c.gates| == |lines| - 3 &&
      forall i :: 3 <= i < |lines| ==> ConvertGate(lines[i], Register) == Ok(c.gates[i - 3])
  {
    var lines := SplitLines(code);
    var body := lines[3..];
    TranslateAllValues(body, Register);
    assert forall i :: 3 <= i < |lines| ==> body[i - 3] == lines[i];
  }

  /** The text assembled from a header, a register declaration `qreg q[<n>];`
      and gate lines (one per line) is read back as `n` and the translations
      of those gate lines. */
  lemma ParseQasmOfLines(first: string, second: string, n: string, gates: seq<string>)
    requires NoLineBreak(first) && NoLineBreak(second)
    requires NoLineBreak(n) && 'q' !in n && ']' !in n
    requires forall i :: 0 <= i < |gates| ==> NoLineBreak(gates[i])
    ensures var code := JoinLines([first, second, "qreg q[" + n + "];"] + gates);
      ParseQasm(code).Ok? <==> forall i :: 0 <= i < |gates| ==> ConvertGate(gates[i], Register).Ok?
    ensures var code := JoinLines([first, second, "qreg q[" + n + "];"] + gates);
      ParseQasm(code).Ok? ==>
        ParseQasm(code).value.qubitCount == n && |ParseQasm(code).value.gates| == |gates| &&
        forall i :: 0 <= i < |gates| ==> Ok(ParseQasm(code).value.gates[i]) == ConvertGate(gates[i], Register)
  {
    var decl := "qreg q[" + n + "];";
    var ls := [first, second, decl] + gates;
    DeclarationIsOneLine(n);
    LinesAreOneLine(first, second, decl, gates);
    SplitJoinLines(ls);
    assert decl == "" + "qreg q[" + (n + "]" + ";");
    FindAfterPrefix("", "qreg q[", n + "]" + ";");
    assert decl == "" + "qreg q[" + n + "]" + ";";
    QubitCountOf("", n, ";");
    ParseQasmOfSplit(JoinLines(ls), decl, gates, n);
  }

  lemma DeclarationIsOneLine(n: string)
    requires NoLineBreak(n)
    ensures NoLineBreak("qreg q[" + n + "];")
  {
    var decl := "qreg q[" + n + "];";
    assert forall c :: c in decl ==> c in "qreg q[" || c in n || c in "];";
  }

  lemma LinesAreOneLine(first: string, second: string, decl: string, gates: seq<string>)
    requires NoLineBreak(first) && NoLineBreak(second) && NoLineBreak(decl)
    requires forall i :: 0 <= i < |gates| ==> NoLineBreak(gates[i])
    ensures forall i :: 0 <= i < |[first, second, decl] + gates| ==> NoLineBreak(([first, second, decl] + gates)[i])
  {
    var ls := [first, second, decl] + gates;
    forall i | 0 <= i < |ls| ensures NoLineBreak(ls[i]) {
      if i >= 3 { assert ls[i] == gates[i - 3]; }
    }
  }

  /** Reading a text whose lines are known: the count from the third, the
      calls from the rest. */
  lemma ParseQasmOfSplit(code: string, decl: string, gates: seq<string>, n: string)
    requires |SplitLines(code)| >= 3 && SplitLines(code)[2] == decl && SplitLines(code)[3..] == gates
    requires QubitCount(decl) == Ok(n)
    ensures ParseQasm(code).Ok? <==> forall i :: 0 <= i < |gates| ==> ConvertGate(gates[i], Register).Ok?
    ensures ParseQasm(code).Ok? ==>
      ParseQasm(code).value.qubitCount == n && |ParseQasm(code).value.gates| == |gates| &&
      forall i :: 0 <= i < |gates| ==> Ok(ParseQasm(code).value.gates[i]) == ConvertGate(gates[i], Register)
  {
    TranslateAllOk(gates, Register);
    if TranslateAll(gates, Register).Ok? {
      TranslateAllValues(gates, Register);
    }
  }
}
