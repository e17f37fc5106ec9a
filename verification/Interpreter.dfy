/** The query interpreter of a worker: scripts are read line by line, blank lines and
    comments are skipped, and a preempted query resumes by reading the script again from
    the start and skipping as many instructions as its program counter says. */
module Interpreter {

  // ------------------------------------------------------------------ the script

  predicate IsSpace(c: char) {
    c == ' ' || '\t' <= c <= '\r'
  }

  function TrimLeft(s: string): string {
    if s != "" && IsSpace(s[0]) then TrimLeft(s[1..]) else s
  }

  function TrimRight(s: string): string {
    if s != "" && IsSpace(s[|s| - 1]) then TrimRight(s[..|s| - 1]) else s
  }

  function Trim(s: string): string {
    TrimRight(TrimLeft(s))
  }

  /** Not empty, and without a space at either end. */
  predicate Bare(s: string) {
    s != "" && !IsSpace(s[0]) && !IsSpace(s[|s| - 1])
  }

  lemma {:induction false} TrimRightIsBare(s: string)
    requires s == "" || !IsSpace(s[0])
    ensures TrimRight(s) == "" || Bare(TrimRight(s))
  {
    if s != "" && IsSpace(s[|s| - 1]) { TrimRightIsBare(s[..|s| - 1]); }
  }

  lemma {:induction false} TrimIsBare(s: string)
    ensures Trim(s) == "" || Bare(Trim(s))
  {
    if s != "" && IsSpace(s[0]) { TrimIsBare(s[1..]); } else { TrimRightIsBare(s); }
  }

  /** Position of the newline that ends the line starting at `pos`, or the end of text. */
  function LineEnd(text: string, pos: nat): (e: nat)
    requires pos <= |text|
    ensures pos <= e <= |text|
    decreases |text| - pos
  {
    if pos == |text| || text[pos] == '\n' then pos else LineEnd(text, pos + 1)
  }

  function AfterLine(text: string, pos: nat): (p: nat)
    requires pos <= |text|
    ensures pos <= p <= |text| && (pos < |text| ==> pos < p)
  {
    var e := LineEnd(text, pos);
    if e < |text| then e + 1 else e
  }

  /** A trimmed line that holds no instruction. */
  predicate Skipped(line: string) {
    line == "" || line[0] == '#'
  }

  /** The instructions of the script from position `pos` on, one per line. */
  function Instructions(text: string, pos: nat): seq<string>
    requires pos <= |text|
    decreases |text| - pos
  {
    if pos == |text| then [] else
    var line := Trim(text[pos..LineEnd(text, pos)]);
    var rest := Instructions(text, AfterLine(text, pos));
    if Skipped(line) then rest else [line] + rest
  }

  // ----------------------------------------------------------------- instructions

  function Upper(c: char): char {
    if 'a' <= c <= 'z' then ((c as int) - 32) as char else c
  }

  function UpTo(s: string, stop: char): string {
    if s == "" || s[0] == stop then "" else [s[0]] + UpTo(s[1..], stop)
  }

  /** The first word, once an inline comment has been cut off. */
  function Word(line: string): string {
    UpTo(if '#' in line then Trim(UpTo(line, '#')) else line, ' ')
  }

  predicate IsEnd(line: string) {
    var w := Word(line);
    |w| == 3 && Upper(w[0]) == 'E' && Upper(w[1]) == 'N' && Upper(w[2]) == 'D'
  }

  lemma EndIsEnd()
    ensures IsEnd("END")
  {
    assert UpTo("D", ' ') == "D" + UpTo("", ' ') == "D";
    assert "ND"[1..] == "D" && UpTo("ND", ' ') == "N" + "D" == "ND";
    assert "END"[1..] == "ND" && UpTo("END", ' ') == "E" + "ND" == "END";
  }

  /** Which instructions cannot be parsed; everything else executes. */
  type Grammar = string -> bool

  predicate Stops(line: string, malformed: Grammar) {
    IsEnd(line) || malformed(line)
  }

  /** What an uninterrupted worker decodes: every instruction once, in order, up to and
      including the first END or malformed line, or an END supplied at end of file. */
  function Program(code: seq<string>, malformed: Grammar): (p: seq<string>)
    ensures 1 <= |p| <= |code| + 1
  {
    if code == [] then ["END"]
    else if Stops(code[0], malformed) then [code[0]]
    else [code[0]] + Program(code[1..], malformed)
  }

  // --------------------------------------------------- one dispatch, as a function

  /** What a dispatch ends with: the report sent to Master. */
  datatype Report = QueryEnd | BadInstruction | PcUpdate(pc: nat)

  datatype Option<T> = None | Some(value: T)

  /** Whether the interrupt check after the k-th instruction of dispatch d finds one. */
  type Interrupts = (nat, nat) -> bool

  /** What a dispatch that stops after `line` reports: an END, a malformed instruction, or
      the program counter to go on from. */
  function ReportAt(line: string, malformed: Grammar, pc: nat): Report {
    if IsEnd(line) then QueryEnd else if malformed(line) then BadInstruction else PcUpdate(pc)
  }

  /** The instruction at pc; at end of file there is an END. */
  function FetchAt(code: seq<string>, pc: nat): string {
    if pc < |code| then code[pc] else "END"
  }

  function Dispatch(code: seq<string>, malformed: Grammar, hits: Interrupts, d: nat, k: nat, pc: nat)
    : (seq<string>, Report)
    decreases |code| - pc
  {
    var line := FetchAt(code, pc);
    if pc >= |code| || Stops(line, malformed) || hits(d, k) then ([line], ReportAt(line, malformed, pc + 1))
    else var (more, r) := Dispatch(code, malformed, hits, d, k + 1, pc + 1); ([line] + more, r)
  }

  /** With `decoded` behind it, the rest of a dispatch ends with `end`. */
  ghost predicate DispatchesTo(code: seq<string>, malformed: Grammar, hits: Interrupts, d: nat, k: nat, pc: nat,
                               decoded: seq<string>, end: (seq<string>, Report))
    decreases |code| - pc
  {
    var line := FetchAt(code, pc);
    if pc >= |code| || Stops(line, malformed) || hits(d, k)
    then end == (decoded + [line], ReportAt(line, malformed, pc + 1))
    else DispatchesTo(code, malformed, hits, d, k + 1, pc + 1, decoded + [line], end)
  }

  /** What is still to be true of a dispatch in progress: instructions done, program counter,
      instructions decoded. */
  type Goal = (nat, nat, seq<string>) -> bool

  /** `goal` says what DispatchesTo says; the cycle passes it from turn to turn without looking
      into it. */
  ghost predicate MeansDispatchesTo(goal: Goal, code: seq<string>, malformed: Grammar, hits: Interrupts, d: nat,
                                    end: (seq<string>, Report)) {
    forall k, pc, decoded {:trigger DispatchesTo(code, malformed, hits, d, k, pc, decoded, end)} ::
      goal(k, pc, decoded) <==> DispatchesTo(code, malformed, hits, d, k, pc, decoded, end)
  }

  lemma {:induction false} DispatchesToDispatch(code: seq<string>, malformed: Grammar, hits: Interrupts, d: nat,
                                                k: nat, pc: nat, decoded: seq<string>)
    ensures var (rest, report) := Dispatch(code, malformed, hits, d, k, pc);
      DispatchesTo(code, malformed, hits, d, k, pc, decoded, (decoded + rest, report))
    decreases |code| - pc
  {
    var line := FetchAt(code, pc);
    if pc < |code| && !Stops(line, malformed) && !hits(d, k) {
      DispatchesToDispatch(code, malformed, hits, d, k + 1, pc + 1, decoded + [line]);
      Appended(decoded, [line], Dispatch(code, malformed, hits, d, k + 1, pc + 1).0);
    }
  }

  lemma DispatchStarts(code: seq<string>, malformed: Grammar, hits: Interrupts, d: nat, pc: nat)
    ensures DispatchesTo(code, malformed, hits, d, 0, pc, [], Dispatch(code, malformed, hits, d, 0, pc))
  {
    DispatchesToDispatch(code, malformed, hits, d, 0, pc, []);
    Appended([], [], Dispatch(code, malformed, hits, d, 0, pc).0);
  }

  /** From pc on, a dispatch decodes a stretch of the program and either finishes it or
      reports where the next dispatch has to go on. */
  lemma {:induction false} DispatchDecodesStretch(code: seq<string>, malformed: Grammar, hits: Interrupts, d: nat,
                      k: nat, pc: nat)
    requires pc <= |code|
    ensures var (decoded, r) := Dispatch(code, malformed, hits, d, k, pc);
      if r.PcUpdate?
      then pc < r.pc <= |code| && |decoded| == r.pc - pc
           && Program(code[pc..], malformed) == decoded + Program(code[r.pc..], malformed)
      else decoded == Program(code[pc..], malformed)
           && (r.QueryEnd? <==> IsEnd(decoded[|decoded| - 1]))
    decreases |code| - pc
  {
    EndIsEnd();
    if pc < |code| {
      var line := code[pc];
      assert code[pc..][0] == line && code[pc..][1..] == code[pc + 1..];
      if !Stops(line, malformed) {
        assert Program(code[pc..], malformed) == [line] + Program(code[pc + 1..], malformed);
        if !hits(d, k) {
          DispatchDecodesStretch(code, malformed, hits, d, k + 1, pc + 1);
          var (more, r) := Dispatch(code, malformed, hits, d, k + 1, pc + 1);
          assert Dispatch(code, malformed, hits, d, k, pc) == ([line] + more, r);
          if r.PcUpdate? {
            Appended([line], more, Program(code[r.pc..], malformed));
          } else {
            assert ([line] + more)[|more|] == more[|more| - 1];
          }
        }
      }
    }
  }

  // ------------------------------------------------------------ the whole query

  /** What is decoded over all dispatches from dispatch d on, and how many there are. */
  function AllDispatches(code: seq<string>, malformed: Grammar, hits: Interrupts, d: nat,
                      pc: nat): (r: (seq<string>, nat))
    requires pc <= |code|
    decreases |code| - pc
  {
    var (decoded, r) := Dispatch(code, malformed, hits, d, 0, pc);
    DispatchDecodesStretch(code, malformed, hits, d, 0, pc);
    if r.PcUpdate? then
      var (more, n) := AllDispatches(code, malformed, hits, d + 1, r.pc);
      (decoded + more, n + 1)
    else (decoded, 1)
  }

  /** Preemption is invisible: whatever the interrupts, the instructions decoded over all
      dispatches are exactly the program, and there are no more dispatches than
      instructions decoded, so at most n + 1 for a script of n instructions. */
  lemma {:induction false} PreemptionIsInvisible(code: seq<string>, malformed: Grammar, hits: Interrupts, d: nat,
                      pc: nat)
    requires pc <= |code|
    ensures var (decoded, n) := AllDispatches(code, malformed, hits, d, pc);
      && decoded == Program(code[pc..], malformed)
      && 1 <= n <= |decoded| <= |code| - pc + 1
    decreases |code| - pc
  {
    DispatchDecodesStretch(code, malformed, hits, d, 0, pc);
    var (decoded, r) := Dispatch(code, malformed, hits, d, 0, pc);
    if r.PcUpdate? {
      PreemptionIsInvisible(code, malformed, hits, d + 1, r.pc);
    }
  }

  // ------------------------------------------------------------- the running code

  datatype Line = Eof | Text(line: string)

  function Rest(code: seq<string>, n: nat): seq<string> {
    if n <= |code| then code[n..] else []
  }

  lemma RestStep(code: seq<string>, n: nat, first: string, more: seq<string>)
    requires Rest(code, n) == [first] + more
    ensures n < |code| && code[n] == first && Rest(code, n + 1) == more
  {
    assert Rest(code, n)[1..] == more;
  }

  class ScriptFile {
    const text: string
    var pos: nat

    ghost predicate Valid()
      reads this
    {
      pos <= |text|
    }

    constructor (contents: string)
      ensures Valid() && text == contents && pos == 0
    {
      text := contents;
      pos := 0;
    }

    /** getline, cut at the newline and trimmed. */
    method GetLine() returns (l: Line)
      requires Valid()
      modifies this
      ensures Valid()
      ensures if old(pos) == |text| then l == Eof && pos == old(pos)
              else l == Text(Trim(text[old(pos)..LineEnd(text, old(pos))])) && pos == AfterLine(text, old(pos))
      ensures l.Text? ==> l.line == "" || Bare(l.line)
    {
      if pos == |text| { return Eof; }
      var e := pos;
      while e < |text| && text[e] != '\n'
        invariant pos <= e <= |text| && LineEnd(text, e) == LineEnd(text, pos)
      {
        e := e + 1;
      }
      l := Text(Trim(text[pos..e]));
      TrimIsBare(text[pos..e]);
      pos := if e < |text| then e + 1 else e;
    }

    /** The do-while of fetch: lines are read until one holds an instruction. */
    method NextInstruction() returns (l: Line)
      requires Valid()
      modifies this
      ensures Valid()
      ensures l.Eof? ==> Instructions(text, old(pos)) == [] && Instructions(text, pos) == []
      ensures l.Text? ==> Instructions(text, old(pos)) == [l.line] + Instructions(text, pos)
      ensures l.Text? ==> Bare(l.line) && l.line[0] != '#'
    {
      l := GetLine();
      while l.Text? && Skipped(l.line)
        invariant Valid()
        invariant l.Eof? ==> Instructions(text, old(pos)) == [] && Instructions(text, pos) == []
        invariant l.Text? && !Skipped(l.line) ==> Instructions(text, old(pos)) == [l.line] + Instructions(text, pos)
        invariant l.Text? && Skipped(l.line) ==> Instructions(text, old(pos)) == Instructions(text, pos)
        invariant l.Text? ==> l.line == "" || Bare(l.line)
        decreases |text| - pos, if l.Text? then 1 else 0
      {
        l := GetLine();
      }
    }

    /** The instructions not yet read, given that `n` have been. */
    ghost predicate ReadUpTo(n: nat)
      reads this
    {
      Valid() && Instructions(text, pos) == Rest(Instructions(text, 0), n)
    }

    /** One more instruction, or END when there is none. */
    method ReadNext(ghost n: nat) returns (line: string)
      requires ReadUpTo(n)
      modifies this
      ensures line == FetchAt(Instructions(text, 0), n) && ReadUpTo(n + 1)
      ensures Bare(line) && line[0] != '#'
    {
      var l := NextInstruction();
      if l.Eof? { return "END"; }
      RestStep(Instructions(text, 0), n, l.line, Instructions(text, pos));
      return l.line;
    }

    method Skip(count: nat) returns (eof: bool)
      requires pos == 0
      modifies this
      ensures Valid() && eof == (count > |Instructions(text, 0)|)
      ensures if eof then Instructions(text, pos) == [] else ReadUpTo(count)
    {
      var i := 0;
      while i < count
        invariant 0 <= i <= count && i <= |Instructions(text, 0)| && ReadUpTo(i)
      {
        var l := NextInstruction();
        if l.Eof? { return true; }
        RestStep(Instructions(text, 0), i, l.line, Instructions(text, pos));
        i := i + 1;
      }
      return false;
    }

    /** fetch: on the first call after a preemption, skip `resumeAt` instructions. */
    method Fetch(resumeAt: nat, pc: nat) returns (line: string)
      requires if pc == resumeAt then pos == 0 else pc > resumeAt && ReadUpTo(pc)
      modifies this
      ensures line == FetchAt(Instructions(text, 0), pc) && ReadUpTo(pc + 1)
      ensures Bare(line) && line[0] != '#'
    {
      if resumeAt != 0 {
        if pc == resumeAt {
          var eof := Skip(resumeAt);
          if eof { return "END"; }
        }
      }
      line := ReadNext(pc);
    }
  }

  /** query_interpreter_ciclo: fetch, decode, execute, check for an interrupt. */
  method Cycle(file: ScriptFile, resumeAt: nat, malformed: Grammar, hits: Interrupts, d: nat)
    returns (decoded: seq<string>, report: Report)
    requires file.pos == 0 && resumeAt <= |Instructions(file.text, 0)|
    modifies file
    ensures (decoded, report) == Dispatch(Instructions(file.text, 0), malformed, hits, d, 0, resumeAt)
  {
    ghost var code := Instructions(file.text, 0);
    ghost var end := Dispatch(code, malformed, hits, d, 0, resumeAt);
    DispatchStarts(code, malformed, hits, d, resumeAt);
    ghost var goal: Goal :=
      (k: nat, pc: nat, lines: seq<string>) => DispatchesTo(code, malformed, hits, d, k, pc, lines, end);
    decoded, report := CycleTo(file, resumeAt, malformed, hits, d, goal, end);
  }

  /** The loop of the cycle, for a dispatch that is to end with `end`. */
  method CycleTo(file: ScriptFile, resumeAt: nat, malformed: Grammar, hits: Interrupts, d: nat, ghost goal: Goal,
                 ghost end: (seq<string>, Report))
    returns (decoded: seq<string>, report: Report)
    requires file.pos == 0 && resumeAt <= |Instructions(file.text, 0)|
    requires MeansDispatchesTo(goal, Instructions(file.text, 0), malformed, hits, d, end) && goal(0, resumeAt, [])
    modifies file
    ensures (decoded, report) == end
  {
    var pc, k := resumeAt, 0;
    decoded := [];
    while true
      invariant resumeAt <= pc <= |Instructions(file.text, 0)| && k == pc - resumeAt
      invariant pc == resumeAt ==> file.pos == 0
      invariant pc > resumeAt ==> file.ReadUpTo(pc)
      invariant goal(k, pc, decoded)
      decreases |Instructions(file.text, 0)| - pc
    {
      var line, now := Turn(file, resumeAt, pc, malformed, hits, d, k, decoded, goal, end);
      if now.Some? { return decoded + [line], now.value; }
      decoded, pc, k := decoded + [line], pc + 1, k + 1;
    }
  }

  /** Fetch, decode and execute one instruction; what to report if the query stops there. */
  method Turn(file: ScriptFile, resumeAt: nat, pc: nat, malformed: Grammar, hits: Interrupts, d: nat, k: nat,
              ghost decoded: seq<string>, ghost goal: Goal, ghost end: (seq<string>, Report))
    returns (line: string, report: Option<Report>)
    requires if pc == resumeAt then file.pos == 0 else pc > resumeAt && file.ReadUpTo(pc)
    requires MeansDispatchesTo(goal, Instructions(file.text, 0), malformed, hits, d, end) && goal(k, pc, decoded)
    modifies file
    ensures file.ReadUpTo(pc + 1)
    ensures report.Some? ==> end == (decoded + [line], report.value)
    ensures report.None? ==>
      pc < |Instructions(file.text, 0)| && goal(k + 1, pc + 1, decoded + [line])
  {
    EndIsEnd();
    assert DispatchesTo(Instructions(file.text, 0), malformed, hits, d, k, pc, decoded, end);
    line := file.Fetch(resumeAt, pc);
    report := if Stops(line, malformed) || hits(d, k) then Some(ReportAt(line, malformed, pc + 1)) else None;
    assert report.None? ==>
      DispatchesTo(Instructions(file.text, 0), malformed, hits, d, k + 1, pc + 1, decoded + [line], end);
  }

  /** A query from admission to its end: Master sends it out with the program counter of
      the last report, and the worker opens the script anew each time. */
  method RunQuery(text: string, malformed: Grammar, hits: Interrupts) returns (decoded: seq<string>, dispatches: nat)
    ensures decoded == Program(Instructions(text, 0), malformed)
    ensures dispatches <= |Instructions(text, 0)| + 1
  {
    ghost var code := Instructions(text, 0);
    ghost var all := AllDispatches(code, malformed, hits, 0, 0);
    ghost var rest := all;
    var pc := 0;
    decoded, dispatches := [], 0;
    PreemptionIsInvisible(code, malformed, hits, 0, 0);
    assert code[0..] == code;
    Appended([], [], all.0);
    while true
      invariant pc <= |code| && rest == AllDispatches(code, malformed, hits, dispatches, pc)
      invariant all == (decoded + rest.0, dispatches + rest.1)
      decreases |code| - pc
    {
      var lines, report, next := SendOut(text, pc, malformed, hits, dispatches, rest);
      if report.PcUpdate? { Appended(decoded, lines, next.0); }
      decoded, dispatches := decoded + lines, dispatches + 1;
      if !report.PcUpdate? { return; }
      rest, pc := next, report.pc;
    }
  }

  /** One dispatch of the query to a worker. */
  method SendOut(text: string, pc: nat, malformed: Grammar, hits: Interrupts, d: nat, ghost rest: (seq<string>, nat))
    returns (lines: seq<string>, report: Report, ghost next: (seq<string>, nat))
    requires pc <= |Instructions(text, 0)| && rest == AllDispatches(Instructions(text, 0), malformed, hits, d, pc)
    ensures !report.PcUpdate? ==> rest == (lines, 1)
    ensures report.PcUpdate? ==> pc < report.pc <= |Instructions(text, 0)| && rest == (lines + next.0, 1 + next.1)
    ensures report.PcUpdate? ==> next == AllDispatches(Instructions(text, 0), malformed, hits, d + 1, report.pc)
  {
    ghost var code := Instructions(text, 0);
    var file := new ScriptFile(text);
    DispatchDecodesStretch(code, malformed, hits, d, 0, pc);
    lines, report := Cycle(file, pc, malformed, hits, d);
    next := if report.PcUpdate? then AllDispatches(code, malformed, hits, d + 1, report.pc) else ([], 0);
  }

  lemma Appended(a: seq<string>, b: seq<string>, c: seq<string>)
    ensures a + (b + c) == a + b + c && [] + c == c
  {
  }
}
