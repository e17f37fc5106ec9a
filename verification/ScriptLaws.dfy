/** Which lines of a script are instructions, which of them end the query, and where a dispatch
    stops. */
module ScriptLaws {
  import opened Interpreter

  /** White space within a line: blank, tab, vertical tab, form feed, carriage return. */
  const SPACES := " \t\U{B}\U{C}\r"

  predicate Blank(s: string) {
    forall c :: c in s ==> c in SPACES
  }

  predicate OneLine(s: string) {
    '\n' !in s
  }

  // -------------------------------------------------------------------- trimming

  lemma {:induction false} TrimLeftDrops(a: string, x: string)
    requires Blank(a) && (x == "" || !IsSpace(x[0]))
    ensures TrimLeft(a + x) == x
  {
    if a == "" {
      assert a + x == x;
    } else {
      assert a[0] in a && forall c :: c in a[1..] ==> c in a;
      assert (a + x)[1..] == a[1..] + x;
      TrimLeftDrops(a[1..], x);
    }
  }

  lemma {:induction false} TrimRightDrops(x: string, b: string)
    requires Blank(b) && (x == "" || !IsSpace(x[|x| - 1]))
    ensures TrimRight(x + b) == x
  {
    if b == "" {
      assert x + b == x;
    } else {
      assert b[|b| - 1] in b && forall c :: c in b[..|b| - 1] ==> c in b;
      assert (x + b)[..|x + b| - 1] == x + b[..|b| - 1];
      TrimRightDrops(x, b[..|b| - 1]);
    }
  }

  /** What is between the white space at the two ends stays. */
  lemma TrimKeeps(a: string, x: string, b: string)
    requires Blank(a) && Blank(b) && Bare(x)
    ensures Trim(a + x + b) == x
  {
    assert a + x + b == a + (x + b);
    TrimLeftDrops(a, x + b);
    TrimRightDrops(x, b);
  }

  lemma TrimOfBlank(a: string)
    requires Blank(a)
    ensures Trim(a) == ""
  {
    assert a + "" == a;
    TrimLeftDrops(a, "");
  }

  // ----------------------------------------------------------------- whole lines

  lemma {:induction false} LineEndShifts(before: string, text: string, pos: nat)
    requires pos <= |text|
    ensures LineEnd(before + text, |before| + pos) == |before| + LineEnd(text, pos)
    decreases |text| - pos
  {
    if pos < |text| && text[pos] != '\n' { LineEndShifts(before, text, pos + 1); }
  }

  lemma LineShifts(before: string, text: string, pos: nat)
    requires pos < |text|
    ensures var e := LineEnd(text, pos);
      && LineEnd(before + text, |before| + pos) == |before| + e
      && AfterLine(before + text, |before| + pos) == |before| + AfterLine(text, pos)
      && (before + text)[|before| + pos..|before| + e] == text[pos..e]
  {
    LineEndShifts(before, text, pos);
  }

  /** The line at a position and the instructions after it. */
  lemma InstructionsAt(text: string, pos: nat, line: string, next: nat)
    requires pos < |text| && line == text[pos..LineEnd(text, pos)] && next == AfterLine(text, pos)
    ensures next <= |text| && Instructions(text, pos)
      == if Skipped(Trim(line)) then Instructions(text, next) else [Trim(line)] + Instructions(text, next)
  {
  }

  /** What stands before a position has no say in the instructions from there on. */
  lemma {:induction false} InstructionsShift(before: string, text: string, pos: nat)
    requires pos <= |text|
    ensures Instructions(before + text, |before| + pos) == Instructions(text, pos)
    decreases |text| - pos
  {
    if pos < |text| {
      var line, next := text[pos..LineEnd(text, pos)], AfterLine(text, pos);
      LineShifts(before, text, pos);
      InstructionsAt(text, pos, line, next);
      InstructionsAt(before + text, |before| + pos, line, |before| + next);
      InstructionsShift(before, text, next);
    }
  }

  lemma {:induction false} LineEndsAt(line: string, more: string, pos: nat)
    requires OneLine(line) && pos <= |line| && (more == "" || more[0] == '\n')
    ensures LineEnd(line + more, pos) == |line|
    decreases |line| - pos
  {
    if pos < |line| {
      assert line[pos] in line;
      LineEndsAt(line, more, pos + 1);
    }
  }

  /** The first line of a text and what follows its newline. */
  lemma FirstLine(line: string, text: string)
    requires OneLine(line)
    ensures var rest := Instructions(text, 0);
      Instructions(line + "\n" + text, 0) == if Skipped(Trim(line)) then rest else [Trim(line)] + rest
  {
    var all := line + "\n" + text;
    assert all == line + ("\n" + text) && ("\n" + text)[0] == '\n';
    LineEndsAt(line, "\n" + text, 0);
    assert all[0..|line|] == line;
    InstructionsShift(line + "\n", text, 0);
  }

  /** The last line of a script need not end with a newline. */
  lemma OnlyLine(line: string)
    requires OneLine(line)
    ensures Instructions(line, 0) == Instructions(line + "\n", 0)
  {
    FirstLine(line, "");
    assert line + "\n" + "" == line + "\n" && line + "" == line;
    LineEndsAt(line, "", 0);
    assert line[0..|line|] == line;
    if line == "" { TrimOfBlank(""); }
  }

  /** A line that is empty but for white space, or has a '#' after it, is no instruction. */
  lemma BlankAndCommentLines(spaces: string, comment: string, text: string)
    requires Blank(spaces) && OneLine(comment) && (comment == "" || comment[0] == '#')
    ensures Instructions(spaces + comment + "\n" + text, 0) == Instructions(text, 0)
  {
    assert OneLine(spaces + comment);
    FirstLine(spaces + comment, text);
    if comment == "" {
      assert spaces + comment == spaces;
      TrimOfBlank(spaces);
    } else {
      TrimOfComment(spaces, comment);
    }
  }

  lemma {:induction false} TrimRightKeepsFirst(x: string)
    requires x != "" && !IsSpace(x[0])
    ensures TrimRight(x) != "" && TrimRight(x)[0] == x[0]
  {
    if IsSpace(x[|x| - 1]) { TrimRightKeepsFirst(x[..|x| - 1]); }
  }

  lemma TrimOfComment(spaces: string, comment: string)
    requires Blank(spaces) && comment != "" && comment[0] == '#'
    ensures Skipped(Trim(spaces + comment))
  {
    TrimLeftDrops(spaces, comment);
    TrimRightKeepsFirst(comment);
  }

  /** Any other line is one instruction: what stands between the white space at its two ends. */
  lemma InstructionLines(a: string, line: string, b: string, text: string)
    requires Blank(a) && Blank(b) && OneLine(line) && line != "" && line[0] != '#'
    requires line[0] !in SPACES && line[|line| - 1] !in SPACES
    ensures Instructions(a + line + b + "\n" + text, 0) == [line] + Instructions(text, 0)
  {
    assert OneLine(a + line + b);
    assert line[0] in line && line[|line| - 1] in line;
    FirstLine(a + line + b, text);
    TrimKeeps(a, line, b);
  }

  /** Each instruction of a script is not empty, does not start with '#' and has no space at
      either end. */
  lemma {:induction false} InstructionsAreBare(text: string, pos: nat)
    requires pos <= |text|
    ensures forall line :: line in Instructions(text, pos) ==> Bare(line) && line[0] != '#'
    decreases |text| - pos
  {
    if pos < |text| {
      TrimIsBare(text[pos..LineEnd(text, pos)]);
      InstructionsAreBare(text, AfterLine(text, pos));
    }
  }

  // ------------------------------------------------------------- the word END

  /** The first word of the line does not go on past position w: there is a blank, the end of
      the line, or nothing but white space up to an inline comment. */
  ghost predicate WordEndsAt(line: string, w: nat) {
    w == |line| || (w < |line| && (line[w] == ' ' || CommentFrom(line, w)))
  }

  ghost predicate CommentFrom(line: string, w: nat) {
    exists i :: w <= i < |line| && line[i] == '#' && Blank(line[w..i])
  }

  lemma {:induction false} UpToIs(s: string, stop: char) returns (n: nat)
    ensures n <= |s| && UpTo(s, stop) == s[..n] && stop !in s[..n] && (n < |s| ==> s[n] == stop)
  {
    if s == "" || s[0] == stop {
      n := 0;
    } else {
      n := UpToIs(s[1..], stop);
      n := n + 1;
      assert s[..n] == [s[0]] + s[1..][..n - 1];
    }
  }

  lemma {:induction false} TrimRightIs(s: string) returns (t: nat)
    ensures t <= |s| && TrimRight(s) == s[..t] && (t > 0 ==> !IsSpace(s[t - 1]))
    ensures forall i :: t <= i < |s| ==> IsSpace(s[i])
  {
    t := |s|;
    if s != "" && IsSpace(s[|s| - 1]) {
      t := TrimRightIs(s[..|s| - 1]);
      assert s[..|s| - 1][..t] == s[..t];
    }
  }

  lemma NotBlank(s: string, j: nat)
    requires j < |s| && s[j] !in SPACES
    ensures !Blank(s)
  {
    assert s[j] in s;
  }

  lemma SpacesAre(c: char)
    requires c != '\n'
    ensures c in SPACES <==> IsSpace(c)
  {
  }

  /** Trimming what stands before the first '#'. */
  lemma CutAtComment(line: string, n: nat) returns (c: nat)
    requires OneLine(line) && n < |line| && line[n] == '#' && '#' !in line[..n] && line[0] !in SPACES
    ensures c <= n && Trim(line[..n]) == line[..c] && Blank(line[c..n]) && (c > 0 ==> line[c - 1] !in SPACES)
  {
    forall i | 0 <= i < |line| ensures line[i] in SPACES <==> IsSpace(line[i]) {
      assert line[i] in line;
      SpacesAre(line[i]);
    }
    assert n > 0 ==> line[..n][0] == line[0];
    c := TrimRightIs(line[..n]);
    assert line[..n][..c] == line[..c];
    forall i | 0 <= i < |line[c..n]| ensures line[c..n][i] in SPACES { assert line[..n][c + i] == line[c + i]; }
  }

  /** No comment follows white space before a place where something else comes first. */
  lemma NoCommentBefore(line: string, n: nat, c: nat, w: nat)
    requires w < c <= n < |line| && '#' !in line[..n] && line[c - 1] !in SPACES
    ensures !CommentFrom(line, w)
  {
    assert forall i :: 0 <= i < n ==> line[..n][i] == line[i];
    forall i | w <= i < |line| && line[i] == '#' ensures !Blank(line[w..i]) {
      NotBlank(line[w..i], c - 1 - w);
    }
  }

  /** The line as decode looks at it: cut off at an inline comment and trimmed. */
  lemma CutIs(line: string) returns (c: nat)
    requires OneLine(line) && line != "" && line[0] !in SPACES
    ensures c <= |line| && Word(line) == UpTo(line[..c], ' ')
    ensures c == |line| || CommentFrom(line, c)
    ensures forall w :: 0 <= w < c ==> !CommentFrom(line, w)
  {
    assert line[..|line|] == line;
    if '#' in line {
      var n := UpToIs(line, '#');
      c := CutAtComment(line, n);
      assert CommentFrom(line, c);
      forall w | 0 <= w < c ensures !CommentFrom(line, w) { NoCommentBefore(line, n, c, w); }
    } else {
      c := |line|;
      assert forall i :: 0 <= i < |line| ==> line[i] in line;
    }
  }

  /** The first word of a line goes up to the first place where a word can end. */
  lemma WordIs(line: string) returns (w: nat)
    requires OneLine(line) && line != "" && line[0] !in SPACES
    ensures w <= |line| && Word(line) == line[..w] && WordEndsAt(line, w)
    ensures forall v :: 0 <= v < w ==> !WordEndsAt(line, v)
  {
    var c := CutIs(line);
    w := UpToIs(line[..c], ' ');
    assert line[..c][..w] == line[..w];
    forall v | 0 <= v < w ensures line[v] != ' ' {
      assert line[..c][..w][v] == line[v];
    }
  }

  /** A line ends the query exactly when its first word is END, in letters of either case. */
  lemma EndLaw(line: string)
    requires OneLine(line) && line != "" && line[0] !in SPACES
    ensures IsEnd(line) <==>
      |line| >= 3 && line[0] in "eE" && line[1] in "nN" && line[2] in "dD" && WordEndsAt(line, 3)
  {
    var w := WordIs(line);
    if |line| >= 3 && line[0] in "eE" && line[1] in "nN" && line[2] in "dD" && WordEndsAt(line, 3) {
      forall v | 0 <= v < 3 ensures !WordEndsAt(line, v) {
        forall i | v <= i < |line| && line[i] == '#' ensures !Blank(line[v..i]) {
          NotBlank(line[v..i], 0);
        }
      }
    }
  }

  // ------------------------------------------------------- programs and dispatches

  /** What a query decodes is the script up to its first END or malformed line; when there is
      none, all of it and an END. */
  lemma {:induction false} ProgramLaw(code: seq<string>, malformed: Grammar)
    ensures var p := Program(code, malformed); var n := |p| - 1;
      && n <= |code| && p[..n] == code[..n]
      && (forall i :: 0 <= i < n ==> !IsEnd(code[i]) && !malformed(code[i]))
      && if n < |code| then p[n] == code[n] && (IsEnd(p[n]) || malformed(p[n])) else p[n] == "END"
  {
    if code != [] && !Stops(code[0], malformed) {
      ProgramLaw(code[1..], malformed);
      var rest := Program(code[1..], malformed);
      assert Program(code, malformed)[..|rest|] == [code[0]] + rest[..|rest| - 1];
    }
  }

  /** After the k-th instruction the dispatch goes on. */
  ghost predicate GoesOn(line: string, malformed: Grammar, hits: Interrupts, d: nat, k: nat) {
    !IsEnd(line) && !malformed(line) && !hits(d, k)
  }

  /** The dispatch decodes from pc on and stops at the first END, malformed line, end of file, or
      instruction after which an interrupt is found, and reports just that. */
  ghost predicate StopsFirst(code: seq<string>, malformed: Grammar, hits: Interrupts, d: nat, k: nat, pc: nat,
                             decoded: seq<string>, r: Report)
    requires pc <= |code|
  {
    var n := |decoded| - 1;
    && 0 <= n && pc + n <= |code| && decoded[..n] == code[pc..pc + n]
    && decoded[n] == (if pc + n < |code| then code[pc + n] else "END")
    && (forall i :: 0 <= i < n ==> GoesOn(decoded[i], malformed, hits, d, k + i))
    && if IsEnd(decoded[n]) then r == QueryEnd else if malformed(decoded[n]) then r == BadInstruction
       else r == PcUpdate(pc + n + 1) && hits(d, k + n)
  }

  lemma StopsOneLater(code: seq<string>, malformed: Grammar, hits: Interrupts, d: nat, k: nat, pc: nat,
                      more: seq<string>, r: Report)
    requires pc < |code| && StopsFirst(code, malformed, hits, d, k + 1, pc + 1, more, r)
    requires GoesOn(code[pc], malformed, hits, d, k)
    ensures StopsFirst(code, malformed, hits, d, k, pc, [code[pc]] + more, r)
  {
    var decoded, n := [code[pc]] + more, |more|;
    assert decoded[n] == more[n - 1];
    assert decoded[..n] == [code[pc]] + more[..n - 1] == code[pc..pc + n];
    forall i | 0 <= i < n ensures GoesOn(decoded[i], malformed, hits, d, k + i) {
      if i > 0 { assert decoded[i] == more[i - 1] && GoesOn(more[i - 1], malformed, hits, d, k + 1 + (i - 1)); }
    }
  }

  lemma {:induction false} DispatchLaw(code: seq<string>, malformed: Grammar, hits: Interrupts, d: nat, k: nat, pc: nat)
    requires pc <= |code|
    ensures var (decoded, r) := Dispatch(code, malformed, hits, d, k, pc);
      StopsFirst(code, malformed, hits, d, k, pc, decoded, r)
    decreases |code| - pc
  {
    EndIsEnd();
    if pc < |code| && !Stops(code[pc], malformed) && !hits(d, k) {
      DispatchLaw(code, malformed, hits, d, k + 1, pc + 1);
      var (more, r) := Dispatch(code, malformed, hits, d, k + 1, pc + 1);
      StopsOneLater(code, malformed, hits, d, k, pc, more, r);
    }
  }
}
