/** The text assembly of `create_cpp`: the template is cut at its "&&&"
    markers, the qubit count is appended to fragment 0, the block of calls
    to fragment 2, and the fragments are written back to back. */
module Assembler {
  import opened Outcomes
  import opened PyText
  import opened Extractor

  /** The marker that separates the template fragments. */
  const Marker: string := "&&&"

  /** `init_content.split("&&&")`: the fragments of the template, which
      rejoined with the marker give back the template. */
  function InitQasm(content: string): (fs: seq<string>)
    ensures |fs| >= 1 && Join(fs, Marker) == content
  {
    JoinSplit(content, Marker);
    Split(content, Marker)
  }

  /** `"\n\n"` followed by each call and a newline. */
  function GateBlock(gates: seq<string>): string
  {
    "\n\n" + JoinLines(gates)
  }

  /** The program text `create_cpp` writes, or the missing fragment 2. */
  function Program(content: string, circuit: Circuit): Result<string>
  {
    var fs := InitQasm(content);
    if |fs| < 3 then Err(MissingFragment)
    else Ok(Concat(fs[0 := fs[0] + circuit.qubitCount + ";"][2 := fs[2] + GateBlock(circuit.gates)]))
  }

  /** The assembly as the source performs it: two fragments are updated in
      place, then the block of calls and the output text are accumulated. */
  method CreateCpp(content: string, circuit: Circuit) returns (r: Result<string>)
    ensures r == Program(content, circuit)
  {
    var initCode := InitQasm(content);
    initCode := initCode[0 := initCode[0] + circuit.qubitCount + ";"];
    var gates := "\n\n";
    for i := 0 to |circuit.gates|
      invariant gates == GateBlock(circuit.gates[..i])
    {
      JoinLinesSnoc(circuit.gates[..i], circuit.gates[i]);
      assert circuit.gates[..i + 1] == circuit.gates[..i] + [circuit.gates[i]];
      gates := gates + circuit.gates[i] + "\n";
    }
    assert circuit.gates[..|circuit.gates|] == circuit.gates;
    if |initCode| < 3 {
      return Err(MissingFragment);
    }
    initCode := initCode[2 := initCode[2] + gates];
    var cppCode := "";
    for i := 0 to |initCode|
      invariant cppCode == Concat(initCode[..i])
    {
      ConcatAppend(initCode[..i], [initCode[i]]);
      assert initCode[..i + 1] == initCode[..i] + [initCode[i]];
      cppCode := cppCode + initCode[i];
    }
    assert initCode[..|initCode|] == initCode;
    return Ok(cppCode);
  }

  /** The assembly fails exactly when the template has fewer than two markers. */
  lemma TooFewFragments(content: string, circuit: Circuit)
    ensures var k := Find(content, Marker);
      Program(content, circuit).Err? <==> k < 0 || Find(content[k + 3..], Marker) < 0
  {
    var k := Find(content, Marker);
    if k >= 0 {
      var rest := content[k + 3..];
      assert Split(content, Marker) == [content[..k]] + Split(rest, Marker);
      var j := Find(rest, Marker);
      if j >= 0 {
        assert Split(rest, Marker) == [rest[..j]] + Split(rest[j + 3..], Marker);
      }
    }
  }

  /** For a template written as marker-free fragments, the program is
      fragment 0 and the count and ";", fragment 1, fragment 2 and the block
      of calls, then every later fragment unchanged, in order. */
  lemma ProgramLayout(fs: seq<string>, circuit: Circuit)
    requires |fs| >= 3
    requires forall i :: 0 <= i < |fs| ==> Avoids(fs[i], Marker)
    ensures Program(Join(fs, Marker), circuit) ==
      Ok(fs[0] + circuit.qubitCount + ";" + fs[1] + fs[2] + GateBlock(circuit.gates) + Concat(fs[3..]))
  {
    SplitJoin(fs, Marker);
    ProgramOfFragments(Join(fs, Marker), fs, circuit);
  }

  lemma ProgramOfFragments(content: string, fs: seq<string>, circuit: Circuit)
    requires InitQasm(content) == fs && |fs| >= 3
    ensures Program(content, circuit) ==
      Ok(fs[0] + circuit.qubitCount + ";" + fs[1] + fs[2] + GateBlock(circuit.gates) + Concat(fs[3..]))
  {
    var x := fs[0] + circuit.qubitCount + ";";
    var z := fs[2] + GateBlock(circuit.gates);
    var gs := fs[0 := x][2 := z];
    assert gs == [x, fs[1], z] + fs[3..];
    ConcatThree(x, fs[1], z, fs[3..]);
    var c := Concat(fs[3..]);
    assert x + fs[1] + z + c ==
      fs[0] + circuit.qubitCount + ";" + fs[1] + fs[2] + GateBlock(circuit.gates) + c;
  }

  lemma ConcatThree(x: string, y: string, z: string, rest: seq<string>)
    ensures Concat([x, y, z] + rest) == x + y + z + Concat(rest)
  {
    var ps := [x, y, z] + rest;
    assert ps[1..] == [y, z] + rest;
    assert ps[1..][1..] == [z] + rest;
    assert ps[1..][1..][1..] == rest;
    assert Concat(ps[1..][1..]) == z + Concat(rest);
    assert Concat(ps[1..]) == y + (z + Concat(rest));
  }

  /** The program is as long as the template without its markers, plus the
      count and ";", plus the block of calls. */
  lemma ProgramLength(content: string, circuit: Circuit)
    requires Program(content, circuit).Ok?
    ensures |Program(content, circuit).value| ==
      |content| - |Marker| * (|InitQasm(content)| - 1) +
      |circuit.qubitCount| + 1 + |GateBlock(circuit.gates)|
  {
    var fs := InitQasm(content);
    JoinLength(fs, Marker);
    var x := circuit.qubitCount + ";";
    var b := GateBlock(circuit.gates);
    var gs := fs[0 := fs[0] + x][2 := fs[2] + b];
    ConcatUpdate(fs, 0, x);
    ConcatUpdate(fs[0 := fs[0] + x], 2, b);
  }

  /** Appending to one piece lengthens the concatenation by as much. */
  lemma {:induction false} ConcatUpdate(ps: seq<string>, i: nat, x: string)
    requires i < |ps|
    ensures |Concat(ps[i := ps[i] + x])| == |Concat(ps)| + |x|
    decreases |ps|
  {
    if i > 0 {
      ConcatUpdate(ps[1..], i - 1, x);
      assert ps[i := ps[i] + x][1..] == ps[1..][i - 1 := ps[1..][i - 1] + x];
    }
  }

  /** The block of calls reads back, line by line, as two empty lines and
      then one call per line, in order. */
  lemma GateBlockLines(gates: seq<string>)
    requires forall i :: 0 <= i < |gates| ==> NoLineBreak(gates[i])
    ensures SplitLines(GateBlock(gates)) == ["", ""] + gates
  {
    var ls := ["", ""] + gates;
    forall i | 0 <= i < |ls| ensures NoLineBreak(ls[i]) {
      if i >= 2 { assert ls[i] == gates[i - 2]; }
    }
    SplitJoinLines(ls);
    assert ls[1..] == [""] + gates;
    assert ls[1..][1..] == gates;
    assert JoinLines(ls[1..]) == "\n" + JoinLines(gates);
    assert JoinLines(ls) == "\n" + JoinLines(ls[1..]);
  }
}
