/** The migration runner's statement splitter: splitSQL of internal/database/migrate.go. */
module SqlSplit {
  import opened Text

  // ----- What the splitter looks at in a line -----

  predicate IsNoise(line: string) {
    Trim(line) == "" || HasPrefix(Trim(line), "--")
  }

  predicate OpensTrigger(line: string) {
    HasPrefix(Upper(Trim(line)), "CREATE TRIGGER") || HasPrefix(Upper(Trim(line)), "CREATE OR REPLACE TRIGGER")
  }

  predicate ClosesTrigger(line: string) {
    Upper(Trim(line)) == "END;"
  }

  predicate EndsStatement(line: string) {
    HasSuffix(Trim(line), ";")
  }

  // ----- The splitter as a machine over lines -----

  /** The finished statements as groups of lines, the lines of the unfinished one, and the mode. */
  datatype Machine = Machine(done: seq<seq<string>>, open: seq<string>, inTrigger: bool)

  const START := Machine([], [], false)

  function Feed(m: Machine, line: string): Machine {
    if IsNoise(line) then m
    else
      var open := m.open + [line];
      if !m.inTrigger && OpensTrigger(line) then Machine(m.done, open, true)
      else if m.inTrigger && ClosesTrigger(line) then Machine(m.done + [open], [], false)
      else if !m.inTrigger && EndsStatement(line) then Machine(m.done + [open], [], false)
      else Machine(m.done, open, m.inTrigger)
  }

  function Scan(m: Machine, lines: seq<string>): Machine {
    if lines == [] then m else Feed(Scan(m, lines[..|lines| - 1]), lines[|lines| - 1])
  }

  function Statements(groups: seq<seq<string>>): seq<string> {
    if groups == [] then [] else Statements(groups[..|groups| - 1]) + [Trim(Terminated(groups[|groups| - 1]))]
  }

  function Split(sql: string): seq<string> {
    Statements(Scan(START, SplitLines(sql)).done)
  }

  // ----- The loop -----

  /** A group of lines none of which is blank. */
  ghost predicate NoBlank(lines: seq<string>) {
    forall i :: 0 <= i < |lines| ==> Trim(lines[i]) != ""
  }

  lemma TerminatedNotBlank(lines: seq<string>)
    requires NoBlank(lines) && lines != []
    ensures Trim(Terminated(lines)) != ""
  {
    var n := |lines| - 1;
    var front := Terminated(lines[..n]);
    TrimBlank(lines[n]);
    TrimBlank(Terminated(lines));
    var k :| 0 <= k < |lines[n]| && !IsSpace(lines[n][k]);
    assert Terminated(lines)[|front| + k] == lines[n][k];
  }

  /** Does this line, after the lines collected so far, finish the statement? */
  predicate Finishes(inTrigger: bool, line: string) {
    if inTrigger then ClosesTrigger(line) else !OpensTrigger(line) && EndsStatement(line)
  }

  lemma FeedEffect(m: Machine, line: string)
    requires NoBlank(m.open) && !IsNoise(line)
    ensures var next := Feed(m, line);
            var text := Terminated(m.open) + (line + "\n");
            && NoBlank(next.open) && Trim(text) != ""
            && (if Finishes(m.inTrigger, line)
                then next.open == [] && !next.inTrigger && Statements(next.done) == Statements(m.done) + [Trim(text)]
                else next.done == m.done && Terminated(next.open) == text
                     && next.inTrigger == (m.inTrigger || OpensTrigger(line)))
  {
    var open := m.open + [line];
    assert open[..|m.open|] == m.open;
    TerminatedNotBlank(open);
    assert (m.done + [open])[..|m.done|] == m.done;
  }

  /** The variables of the loop, read off the machine. */
  ghost predicate Tracks(m: Machine, stmts: seq<string>, buf: string, inTrigger: bool) {
    stmts == Statements(m.done) && buf == Terminated(m.open) && inTrigger == m.inTrigger && NoBlank(m.open)
  }

  lemma FeedTracks(m: Machine, line: string, stmts: seq<string>, buf: string, inTrigger: bool)
    requires Tracks(m, stmts, buf, inTrigger) && !IsNoise(line)
    ensures var text := buf + (line + "\n");
            && Trim(text) != ""
            && (if Finishes(inTrigger, line) then Tracks(Feed(m, line), stmts + [Trim(text)], "", false)
                else Tracks(Feed(m, line), stmts, text, inTrigger || OpensTrigger(line)))
  {
    FeedEffect(m, line);
  }

  method SplitSql(sql: string) returns (stmts: seq<string>)
    ensures stmts == Split(sql)
  {
    stmts := [];
    var buf := "";
    var inTrigger := false;
    var lines := SplitLines(sql);
    ghost var m := START;
    for i := 0 to |lines|
      invariant m == Scan(START, lines[..i])
      invariant Tracks(m, stmts, buf, inTrigger)
    {
      var line := lines[i];
      ScanSnoc(START, lines[..i], line);
      PrefixSnoc(lines, i);
      var trimmed := Trim(line);
      if trimmed == "" || HasPrefix(trimmed, "--") {
        continue;
      }
      FeedTracks(m, line, stmts, buf, inTrigger);
      m := Feed(m, line);
      buf := buf + (line + "\n");
      var upper := Upper(trimmed);
      if !inTrigger && (HasPrefix(upper, "CREATE TRIGGER") || HasPrefix(upper, "CREATE OR REPLACE TRIGGER")) {
        inTrigger := true;
      } else if (inTrigger && upper == "END;") || (!inTrigger && HasSuffix(trimmed, ";")) {
        inTrigger := false;
        var s := Trim(buf);
        if s != "" {
          stmts := stmts + [s];
        }
        buf := "";
      }
    }
    assert lines[..|lines|] == lines;
  }

  // ----- Conservation -----

  function Concat(groups: seq<seq<string>>): seq<string> {
    if groups == [] then [] else Concat(groups[..|groups| - 1]) + groups[|groups| - 1]
  }

  /** The lines that are neither blank nor comments. */
  function Significant(lines: seq<string>): seq<string> {
    if lines == [] then []
    else
      var front := Significant(lines[..|lines| - 1]);
      if IsNoise(lines[|lines| - 1]) then front else front + [lines[|lines| - 1]]
  }

  lemma ConcatSnoc(groups: seq<seq<string>>, g: seq<string>)
    ensures Concat(groups + [g]) == Concat(groups) + g
  {
    assert (groups + [g])[..|groups|] == groups;
  }

  /** Every significant line ends up in exactly one place, in order. */
  lemma {:induction false} ScanConserves(m: Machine, lines: seq<string>)
    ensures var r := Scan(m, lines); Concat(r.done) + r.open == Concat(m.done) + m.open + Significant(lines)
  {
    if lines != [] {
      var n := |lines| - 1;
      var before := Scan(m, lines[..n]);
      ScanConserves(m, lines[..n]);
      if !IsNoise(lines[n]) {
        FeedConserves(before, lines[n]);
        assert Concat(m.done) + m.open + Significant(lines)
               == (Concat(m.done) + m.open + Significant(lines[..n])) + [lines[n]];
      }
    }
  }

  lemma FeedConserves(m: Machine, line: string)
    requires !IsNoise(line)
    ensures Concat(Feed(m, line).done) + Feed(m, line).open == Concat(m.done) + m.open + [line]
  {
    ConcatSnoc(m.done, m.open + [line]);
    Regroup(Concat(m.done), m.open, [line]);
  }

  lemma Regroup(a: seq<string>, b: seq<string>, c: seq<string>)
    ensures a + (b + c) == a + b + c
    ensures a + b + c + [] == a + b + c
  {
  }

  lemma PrefixSnoc(g: seq<string>, n: nat)
    requires n < |g|
    ensures g[..n + 1] == g[..n] + [g[n]]
  {
  }

  lemma {:induction false} ScanSnoc(m: Machine, a: seq<string>, line: string)
    ensures Scan(m, a + [line]) == Feed(Scan(m, a), line)
  {
    assert (a + [line])[..|a|] == a;
  }

  lemma {:induction false} ScanConcat(m: Machine, a: seq<string>, b: seq<string>)
    ensures Scan(m, a + b) == Scan(Scan(m, a), b)
  {
    if b == [] {
      assert a + b == a;
    } else {
      var n := |b| - 1;
      assert (a + b)[..|a| + n] == a + b[..n];
      ScanConcat(m, a, b[..n]);
    }
  }

  /** Blank and comment lines make no difference. */
  lemma {:induction false} NoiseIgnored(m: Machine, lines: seq<string>)
    ensures Scan(m, Significant(lines)) == Scan(m, lines)
  {
    if lines != [] {
      var n := |lines| - 1;
      NoiseIgnored(m, lines[..n]);
      if !IsNoise(lines[n]) {
        ScanSnoc(m, Significant(lines[..n]), lines[n]);
      }
    }
  }

  /** The machine's history does not matter: done groups are only ever added to. */
  lemma {:induction false} ScanShift(m: Machine, lines: seq<string>)
    ensures var r := Scan(Machine([], m.open, m.inTrigger), lines);
            Scan(m, lines) == Machine(m.done + r.done, r.open, r.inTrigger)
  {
    if lines == [] {
      assert m.done + [] == m.done;
    } else {
      ScanShift(m, lines[..|lines| - 1]);
    }
  }

  /** The lines of exactly one statement: the machine closes it with the last line, not before. */
  ghost predicate Closed(g: seq<string>) {
    Scan(START, g) == Machine([g], [], false)
  }

  lemma {:induction false} ScanGroups(groups: seq<seq<string>>)
    requires forall i :: 0 <= i < |groups| ==> Closed(groups[i])
    ensures Scan(START, Concat(groups)) == Machine(groups, [], false)
  {
    if groups != [] {
      var n := |groups| - 1;
      ScanGroups(groups[..n]);
      ScanConcat(START, Concat(groups[..n]), groups[n]);
      ScanShift(Machine(groups[..n], [], false), groups[n]);
      assert groups[..n] + [groups[n]] == groups;
    }
  }

  /** What the machine produces: closed groups, and an unfinished rest that closes nothing. */
  ghost predicate WellScanned(m: Machine) {
    && (forall i :: 0 <= i < |m.done| ==> Closed(m.done[i]))
    && Scan(START, m.open) == Machine([], m.open, m.inTrigger)
  }

  lemma FeedWellScanned(m: Machine, line: string)
    requires WellScanned(m)
    ensures WellScanned(Feed(m, line))
  {
    ScanSnoc(START, m.open, line);
    if !IsNoise(line) {
      assert [] + [m.open + [line]] == [m.open + [line]];
    }
  }

  lemma {:induction false} ScanWellScanned(lines: seq<string>)
    ensures WellScanned(Scan(START, lines))
  {
    if lines != [] {
      var n := |lines| - 1;
      ScanWellScanned(lines[..n]);
      FeedWellScanned(Scan(START, lines[..n]), lines[n]);
    }
  }

  /** The scan of an input: closed groups, in the order of the significant lines, and a rest. */
  lemma SplitScans(sql: string)
    ensures var m := Scan(START, SplitLines(sql));
            && Split(sql) == Statements(m.done)
            && Concat(m.done) + m.open == Significant(SplitLines(sql))
            && (forall i :: 0 <= i < |m.done| ==> Closed(m.done[i]))
            && Scan(START, m.open) == Machine([], m.open, m.inTrigger)
  {
    ScanKeeps(SplitLines(sql));
    ScanWellScanned(SplitLines(sql));
  }

  lemma ScanKeeps(lines: seq<string>)
    ensures var m := Scan(START, lines); Concat(m.done) + m.open == Significant(lines)
  {
    ScanConserves(START, lines);
    NothingBefore(Significant(lines));
  }

  lemma NothingBefore(lines: seq<string>)
    ensures Concat(START.done) + START.open + lines == lines
  {
  }

  // ----- Printing and splitting -----

  /** A statement as its author would write it down: no outer blanks, no blank line. */
  ghost predicate Tidy(g: seq<string>) {
    g != [] && AllOneLine(g) && NoBlank(g) && TrimLeft(g[0]) == g[0] && TrimRight(g[|g| - 1]) == g[|g| - 1]
  }

  /** A statement that is not a trigger: only its last line ends in a semicolon. */
  ghost predicate Plain(g: seq<string>) {
    && g != []
    && (forall i :: 0 <= i < |g| ==> !IsNoise(g[i]) && !OpensTrigger(g[i]))
    && (forall i :: 0 <= i < |g| ==> (EndsStatement(g[i]) <==> i == |g| - 1))
  }

  /** A trigger: opened by line `k`, closed by its only END; line, with any semicolons in between. */
  ghost predicate Trigger(g: seq<string>, k: nat) {
    && k < |g| - 1 && (forall i :: 0 <= i < |g| ==> !IsNoise(g[i]))
    && (forall i :: 0 <= i < k ==> !OpensTrigger(g[i]) && !EndsStatement(g[i]))
    && OpensTrigger(g[k])
    && (forall i :: k < i < |g| ==> (ClosesTrigger(g[i]) <==> i == |g| - 1))
  }

  lemma {:induction false} NothingFinishes(g: seq<string>, n: nat)
    requires n <= |g|
    requires forall i :: 0 <= i < n ==> !IsNoise(g[i]) && !OpensTrigger(g[i]) && !EndsStatement(g[i])
    ensures Scan(START, g[..n]) == Machine([], g[..n], false)
  {
    if n > 0 {
      NothingFinishes(g, n - 1);
      PrefixSnoc(g, n - 1);
      QuietLine(g[..n - 1], g[n - 1]);
    }
  }

  lemma QuietLine(open: seq<string>, line: string)
    requires !IsNoise(line) && !OpensTrigger(line) && !EndsStatement(line)
             && Scan(START, open) == Machine([], open, false)
    ensures Scan(START, open + [line]) == Machine([], open + [line], false)
  {
    ScanSnoc(START, open, line);
  }

  /** A line that finishes the statement collected so far closes the whole group. */
  lemma LastLineCloses(open: seq<string>, line: string, inTrigger: bool)
    requires !IsNoise(line) && Finishes(inTrigger, line) && Scan(START, open) == Machine([], open, inTrigger)
    ensures Closed(open + [line])
  {
    ScanSnoc(START, open, line);
    assert [] + [open + [line]] == [open + [line]];
  }

  lemma PlainIsClosed(g: seq<string>)
    requires Plain(g)
    ensures Closed(g)
  {
    var n := |g| - 1;
    NothingFinishes(g, n);
    LastLineCloses(g[..n], g[n], false);
    LastApart(g);
  }

  lemma LastApart(g: seq<string>)
    requires g != []
    ensures g[..|g| - 1] + [g[|g| - 1]] == g
  {
  }

  lemma OpeningLine(g: seq<string>, k: nat)
    requires Trigger(g, k)
    ensures Scan(START, g[..k + 1]) == Machine([], g[..k + 1], true)
  {
    NothingFinishes(g, k);
    var line := g[k];
    assert !IsNoise(line) && OpensTrigger(line);
    PrefixSnoc(g, k);
    ScanSnoc(START, g[..k], line);
  }

  lemma InnerLine(open: seq<string>, line: string)
    requires !IsNoise(line) && !ClosesTrigger(line) && Scan(START, open) == Machine([], open, true)
    ensures Scan(START, open + [line]) == Machine([], open + [line], true)
  {
    ScanSnoc(START, open, line);
  }

  lemma {:induction false} StaysOpen(open: seq<string>, inner: seq<string>)
    requires Scan(START, open) == Machine([], open, true)
    requires forall i :: 0 <= i < |inner| ==> !IsNoise(inner[i]) && !ClosesTrigger(inner[i])
    ensures Scan(START, open + inner) == Machine([], open + inner, true)
    decreases inner
  {
    if inner == [] {
      assert open + inner == open;
    } else {
      InnerLine(open, inner[0]);
      StaysOpen(open + [inner[0]], inner[1..]);
      OneByOne(open, inner);
    }
  }

  lemma OneByOne(a: seq<string>, b: seq<string>)
    requires b != []
    ensures a + [b[0]] + b[1..] == a + b
  {
  }

  lemma TriggerIsClosed(g: seq<string>, k: nat)
    requires Trigger(g, k)
    ensures Closed(g)
  {
    var opening, inner, last := g[..k + 1], g[k + 1..|g| - 1], g[|g| - 1];
    OpeningLine(g, k);
    InnerLines(g, k);
    StaysOpen(opening, inner);
    LastLineCloses(opening + inner, last, true);
    ThreeParts(g, k + 1);
  }

  lemma ThreeParts(g: seq<string>, i: nat)
    requires i < |g|
    ensures g[..i] + g[i..|g| - 1] + [g[|g| - 1]] == g
  {
  }

  lemma InnerLines(g: seq<string>, k: nat)
    requires Trigger(g, k)
    ensures var inner := g[k + 1..|g| - 1];
            forall i :: 0 <= i < |inner| ==> !IsNoise(inner[i]) && !ClosesTrigger(inner[i])
    ensures !IsNoise(g[|g| - 1]) && Finishes(true, g[|g| - 1])
  {
    var inner := g[k + 1..|g| - 1];
    forall i | 0 <= i < |inner| ensures !IsNoise(inner[i]) && !ClosesTrigger(inner[i]) {
      assert inner[i] == g[k + 1 + i];
    }
  }

  lemma {:induction false} StatementsAt(groups: seq<seq<string>>)
    ensures |Statements(groups)| == |groups|
    ensures forall i :: 0 <= i < |groups| ==> Statements(groups)[i] == Trim(Terminated(groups[i]))
  {
    if groups != [] {
      var n := |groups| - 1;
      var front := Statements(groups[..n]);
      StatementsAt(groups[..n]);
      forall i | 0 <= i <= n ensures Statements(groups)[i] == Trim(Terminated(groups[i])) {
        assert i < n ==> groups[..n][i] == groups[i] && Statements(groups)[i] == front[i];
      }
    }
  }

  /** Each statement printed. */
  function Printed(groups: seq<seq<string>>): seq<string> {
    seq(|groups|, i requires 0 <= i < |groups| => JoinLines(groups[i]))
  }

  // ----- Outer blanks -----

  function TrimEnds(g: seq<string>): seq<string>
    requires g != []
  {
    var h := [TrimLeft(g[0])] + g[1..];
    h[..|h| - 1] + [TrimRight(h[|h| - 1])]
  }

  lemma TrimmedFirst(g: seq<string>)
    requires g != [] && Trim(g[0]) != ""
    ensures TrimLeft(JoinLines(g)) == JoinLines([TrimLeft(g[0])] + g[1..])
  {
    TrimBlank(g[0]);
    BlankBothWays(g[0]);
    if |g| > 1 {
      TrimLeftConcat(g[0], "\n" + JoinLines(g[1..]));
      JoinFirst(g[0], g[1..]);
      JoinFirst(TrimLeft(g[0]), g[1..]);
      FirstApart(g);
    }
  }

  lemma JoinFirst(line: string, rest: seq<string>)
    requires rest != []
    ensures JoinLines([line] + rest) == line + ("\n" + JoinLines(rest))
  {
    assert ([line] + rest)[1..] == rest;
    assert line + "\n" + JoinLines(rest) == line + ("\n" + JoinLines(rest));
  }

  lemma TrimmedLast(g: seq<string>)
    requires g != [] && Trim(g[|g| - 1]) != ""
    ensures TrimRight(JoinLines(g)) == JoinLines(g[..|g| - 1] + [TrimRight(g[|g| - 1])])
  {
    var n := |g| - 1;
    PrefixSnoc(g, n);
    assert g[..n + 1] == g;
    TrimmedEnd(g[..n], g[n]);
  }

  lemma TrimmedEnd(front: seq<string>, last: string)
    requires Trim(last) != ""
    ensures TrimRight(JoinLines(front + [last])) == JoinLines(front + [TrimRight(last)])
  {
    TrimBlank(last);
    BlankBothWays(last);
    if front == [] {
      assert front + [last] == [last] && front + [TrimRight(last)] == [TrimRight(last)];
    } else {
      JoinConcat(front, [last]);
      JoinConcat(front, [TrimRight(last)]);
      TrimRightConcat(JoinLines(front) + "\n", last);
    }
  }

  /** The text of a statement is its lines, joined, without the outer blanks. */
  lemma StatementText(g: seq<string>)
    requires g != [] && NoBlank(g)
    ensures Trim(Terminated(g)) == JoinLines(TrimEnds(g))
  {
    TerminatedIsJoined(g);
    assert TrimRight("\n") == "" by { assert "\n"[..0] == ""; }
    TrimAddBlank(JoinLines(g), "\n");
    TrimmedFirst(g);
    var h := [TrimLeft(g[0])] + g[1..];
    TrimIdempotent(g[0]);
    TrimmedLast(h);
  }

  lemma FirstApart(g: seq<string>)
    requires g != []
    ensures [g[0]] + g[1..] == g
  {
  }

  lemma TidyText(g: seq<string>)
    requires Tidy(g)
    ensures TrimEnds(g) == g && Trim(Terminated(g)) == JoinLines(g)
  {
    StatementText(g);
    FirstApart(g);
    LastApart(g);
  }

  ghost predicate WellFormed(g: seq<string>) {
    Plain(g) || exists k: nat :: Trigger(g, k)
  }

  lemma WellFormedIsClosed(g: seq<string>)
    requires WellFormed(g)
    ensures Closed(g)
  {
    if Plain(g) {
      PlainIsClosed(g);
    } else {
      var k: nat :| Trigger(g, k);
      TriggerIsClosed(g, k);
    }
  }

  /** Print and split: take any list of well-formed statements, write their lines down in order with any
      blank and comment lines in between; splitting gives back exactly the statements, trigger bodies
      unsplit. */
  lemma {:induction false} PrintSplit(lines: seq<string>, stmts: seq<seq<string>>)
    requires lines != [] && AllOneLine(lines) && Significant(lines) == Concat(stmts)
    requires forall i :: 0 <= i < |stmts| ==> Tidy(stmts[i]) && WellFormed(stmts[i])
    ensures Split(JoinLines(lines)) == Printed(stmts)
  {
    SplitJoin(lines);
    NoiseIgnored(START, lines);
    forall i | 0 <= i < |stmts| ensures Closed(stmts[i]) {
      WellFormedIsClosed(stmts[i]);
    }
    ScanGroups(stmts);
    StatementsPrinted(stmts);
  }

  lemma StatementsPrinted(groups: seq<seq<string>>)
    requires forall i :: 0 <= i < |groups| ==> Tidy(groups[i])
    ensures Statements(groups) == Printed(groups)
  {
    StatementsAt(groups);
    forall i | 0 <= i < |groups| ensures Statements(groups)[i] == Printed(groups)[i] {
      TidyText(groups[i]);
    }
  }

  // ----- Nothing but well-formed statements -----

  /** Lines that neither open a trigger nor end a statement. */
  ghost predicate NoneEnds(h: seq<string>) {
    forall i :: 0 <= i < |h| ==> !IsNoise(h[i]) && !OpensTrigger(h[i]) && !EndsStatement(h[i])
  }

  /** A trigger opened by line `k` and not closed. */
  ghost predicate Inside(h: seq<string>, k: nat) {
    && k < |h| && (forall i :: 0 <= i < |h| ==> !IsNoise(h[i]))
    && (forall i :: 0 <= i < k ==> !OpensTrigger(h[i]) && !EndsStatement(h[i]))
    && OpensTrigger(h[k]) && (forall i :: k < i < |h| ==> !ClosesTrigger(h[i]))
  }

  /** A statement begun and not ended, or nothing at all. */
  ghost predicate Unfinished(h: seq<string>) {
    NoneEnds(h) || exists k: nat :: Inside(h, k)
  }

  /** The last line of a scan that has closed nothing. */
  lemma LastOpen(front: seq<string>, line: string, inTrigger: bool)
    requires !IsNoise(line) && Scan(START, front + [line]) == Machine([], front + [line], inTrigger)
    ensures var m := Scan(START, front);
            && m == Machine([], front, m.inTrigger)
            && (if inTrigger then if m.inTrigger then !ClosesTrigger(line) else OpensTrigger(line)
                else !m.inTrigger && !OpensTrigger(line) && !EndsStatement(line))
  {
    ScanSnoc(START, front, line);
    var m := Scan(START, front);
    FeedOpen(m, line);
    assert m.open + [line] == front + [line];
    SameFront(m.open, front, line);
  }

  lemma SameFront(a: seq<string>, b: seq<string>, line: string)
    requires a + [line] == b + [line]
    ensures a == b
  {
    assert a == (a + [line])[..|a + [line]| - 1] && b == (b + [line])[..|b + [line]| - 1];
  }

  lemma FeedOpen(m: Machine, line: string)
    requires !IsNoise(line) && Feed(m, line).done == []
    ensures m.done == [] && Feed(m, line).open == m.open + [line] && !Finishes(m.inTrigger, line)
    ensures Feed(m, line).inTrigger == (m.inTrigger || OpensTrigger(line))
  {
  }

  lemma {:induction false} OpenShape(h: seq<string>, inTrigger: bool)
    requires Scan(START, h) == Machine([], h, inTrigger) && forall i :: 0 <= i < |h| ==> !IsNoise(h[i])
    ensures if inTrigger then exists k: nat :: Inside(h, k) else NoneEnds(h)
  {
    if h != [] {
      var front, line := h[..|h| - 1], h[|h| - 1];
      LastApart(h);
      LastOpen(front, line, inTrigger);
      OpenShape(front, Scan(START, front).inTrigger);
      LongerShape(front, line, Scan(START, front).inTrigger, inTrigger);
    }
  }

  lemma LongerShape(front: seq<string>, line: string, before: bool, inTrigger: bool)
    requires if before then exists k: nat :: Inside(front, k) else NoneEnds(front)
    requires !IsNoise(line)
    requires if inTrigger then if before then !ClosesTrigger(line) else OpensTrigger(line)
             else !before && !OpensTrigger(line) && !EndsStatement(line)
    ensures if inTrigger then exists k: nat :: Inside(front + [line], k) else NoneEnds(front + [line])
  {
    if inTrigger {
      if before {
        var k: nat :| Inside(front, k);
        assert Inside(front + [line], k);
      } else {
        assert Inside(front + [line], |front|);
      }
    }
  }

  /** The statements the splitter closes are exactly the well-formed ones. */
  lemma {:induction false} ClosedIffWellFormed(g: seq<string>)
    ensures Closed(g) <==> WellFormed(g)
  {
    if Closed(g) {
      ClosedHasNoNoise(g);
      var front, line := g[..|g| - 1], g[|g| - 1];
      LastApart(g);
      ClosedLast(front, line);
      OpenShape(front, Scan(START, front).inTrigger);
      LastForms(front, line, Scan(START, front).inTrigger);
    }
    if WellFormed(g) {
      WellFormedIsClosed(g);
    }
  }

  lemma ClosedLast(front: seq<string>, line: string)
    requires Closed(front + [line]) && !IsNoise(line)
    ensures var m := Scan(START, front); m == Machine([], front, m.inTrigger) && Finishes(m.inTrigger, line)
  {
    ScanSnoc(START, front, line);
    var m := Scan(START, front);
    assert Feed(m, line) == Machine([front + [line]], [], false);
    assert Finishes(m.inTrigger, line);
    assert Feed(m, line).done == m.done + [m.open + [line]];
    OneDone(m.done, m.open + [line], front + [line]);
    SameFront(m.open, front, line);
  }

  lemma OneDone(done: seq<seq<string>>, a: seq<string>, b: seq<string>)
    requires done + [a] == [b]
    ensures done == [] && a == b
  {
    assert |done + [a]| == 1;
    assert (done + [a])[0] == b;
  }

  lemma LastForms(front: seq<string>, line: string, inTrigger: bool)
    requires if inTrigger then exists k: nat :: Inside(front, k) else NoneEnds(front)
    requires !IsNoise(line) && Finishes(inTrigger, line)
    ensures WellFormed(front + [line])
  {
    if inTrigger {
      var k: nat :| Inside(front, k);
      ClosedTrigger(front, line, k);
    } else {
      EndedPlain(front, line);
    }
  }

  lemma ClosedTrigger(front: seq<string>, line: string, k: nat)
    requires Inside(front, k) && !IsNoise(line) && ClosesTrigger(line)
    ensures Trigger(front + [line], k)
  {
    var g := front + [line];
    forall i | 0 <= i < |front| ensures g[i] == front[i] {
    }
    assert g[|front|] == line;
  }

  lemma EndedPlain(front: seq<string>, line: string)
    requires NoneEnds(front) && !IsNoise(line) && !OpensTrigger(line) && EndsStatement(line)
    ensures Plain(front + [line])
  {
    var g := front + [line];
    forall i | 0 <= i < |front| ensures g[i] == front[i] {
    }
    assert g[|front|] == line;
  }

  lemma {:induction false} UnfinishedScan(h: seq<string>) returns (inTrigger: bool)
    requires Unfinished(h)
    ensures Scan(START, h) == Machine([], h, inTrigger)
  {
    inTrigger := !NoneEnds(h);
    if NoneEnds(h) {
      NothingFinishes(h, |h|);
      assert h[..|h|] == h;
    } else {
      var k: nat :| Inside(h, k);
      InsideScan(h, k);
    }
  }

  lemma InsideScan(h: seq<string>, k: nat)
    requires Inside(h, k)
    ensures Scan(START, h) == Machine([], h, true)
  {
    var front, line, rest := h[..k], h[k], h[k + 1..];
    NothingFinishes(h, k);
    FirstInside(front, line);
    TailInside(h, k);
    StaysOpen(front + [line], rest);
    AroundLine(h, k);
  }

  lemma AroundLine(h: seq<string>, k: nat)
    requires k < |h|
    ensures h[..k] + [h[k]] + h[k + 1..] == h
  {
  }

  lemma FirstInside(open: seq<string>, line: string)
    requires !IsNoise(line) && OpensTrigger(line) && Scan(START, open) == Machine([], open, false)
    ensures Scan(START, open + [line]) == Machine([], open + [line], true)
  {
    ScanSnoc(START, open, line);
  }

  lemma TailInside(h: seq<string>, k: nat)
    requires Inside(h, k)
    ensures var rest := h[k + 1..]; forall i :: 0 <= i < |rest| ==> !IsNoise(rest[i]) && !ClosesTrigger(rest[i])
  {
    var rest := h[k + 1..];
    forall i | 0 <= i < |rest| ensures !IsNoise(rest[i]) && !ClosesTrigger(rest[i]) {
      assert rest[i] == h[k + 1 + i];
    }
  }

  /** The significant lines, cut into well-formed statements and an unfinished rest. */
  ghost predicate CutInto(lines: seq<string>, groups: seq<seq<string>>, rest: seq<string>) {
    && Concat(groups) + rest == lines
    && (forall i :: 0 <= i < |groups| ==> WellFormed(groups[i])) && Unfinished(rest)
  }

  /** For every input: the lines that are neither blank nor comments can be cut into well-formed statements
      and an unfinished rest, in one way only; the output is these statements, in order and without their
      outer blanks, and the rest is dropped. */
  lemma {:induction false} SplitConserves(sql: string) returns (groups: seq<seq<string>>, rest: seq<string>)
    ensures CutInto(Significant(SplitLines(sql)), groups, rest) && Split(sql) == Statements(groups)
    ensures forall g, r :: CutInto(Significant(SplitLines(sql)), g, r) ==> g == groups && r == rest
  {
    var m := Scan(START, SplitLines(sql));
    groups, rest := m.done, m.open;
    SplitScans(sql);
    forall i | 0 <= i < |groups| ensures WellFormed(groups[i]) {
      ClosedIffWellFormed(groups[i]);
    }
    RestUnfinished(Concat(groups), rest, SplitLines(sql), m.inTrigger);
    forall g, r | CutInto(Significant(SplitLines(sql)), g, r) ensures g == groups && r == rest {
      OneCut(SplitLines(sql), g, r);
    }
  }

  lemma RestUnfinished(front: seq<string>, rest: seq<string>, lines: seq<string>, inTrigger: bool)
    requires front + rest == Significant(lines) && Scan(START, rest) == Machine([], rest, inTrigger)
    ensures Unfinished(rest)
  {
    forall i | 0 <= i < |rest| ensures !IsNoise(rest[i]) {
      SignificantAt(lines, |front| + i);
      assert rest[i] == (front + rest)[|front| + i];
    }
    OpenShape(rest, inTrigger);
  }

  lemma {:induction false} SignificantAt(lines: seq<string>, i: nat)
    requires i < |Significant(lines)|
    ensures !IsNoise(Significant(lines)[i])
  {
    var front := lines[..|lines| - 1];
    if i < |Significant(front)| {
      SignificantAt(front, i);
    }
  }

  lemma OneCut(lines: seq<string>, groups: seq<seq<string>>, rest: seq<string>)
    requires CutInto(Significant(lines), groups, rest)
    ensures Scan(START, lines).done == groups && Scan(START, lines).open == rest
  {
    forall i | 0 <= i < |groups| ensures Closed(groups[i]) {
      WellFormedIsClosed(groups[i]);
    }
    ScanGroups(groups);
    var inTrigger := UnfinishedScan(rest);
    ScanConcat(START, Concat(groups), rest);
    ScanShift(Machine(groups, [], false), rest);
    NoiseIgnored(START, lines);
    assert groups + [] == groups;
  }

  // ----- Splitting the output again -----

  lemma {:induction false} SignificantNone(lines: seq<string>)
    ensures |Significant(lines)| <= |lines|
    ensures |Significant(lines)| == |lines| ==> forall i :: 0 <= i < |lines| ==> !IsNoise(lines[i])
    ensures (forall i :: 0 <= i < |lines| ==> !IsNoise(lines[i])) ==> Significant(lines) == lines
  {
    if lines != [] {
      var n := |lines| - 1;
      SignificantNone(lines[..n]);
      assert lines == lines[..n] + [lines[n]];
    }
  }

  lemma ClosedHasNoNoise(g: seq<string>)
    requires Closed(g)
    ensures g != [] && NoBlank(g) && forall i :: 0 <= i < |g| ==> !IsNoise(g[i])
  {
    ScanConserves(START, g);
    ConcatSnoc([], g);
    assert [] + [g] == [g];
    SignificantNone(g);
  }

  /** Two machines in the same position, whatever the text of their lines. */
  ghost predicate SameShape(a: Machine, b: Machine) {
    |a.done| == |b.done| && |a.open| == |b.open| && a.inTrigger == b.inTrigger
  }

  ghost predicate SameTrims(a: seq<string>, b: seq<string>) {
    |a| == |b| && forall i :: 0 <= i < |a| ==> Trim(a[i]) == Trim(b[i])
  }

  /** The machine looks at trimmed lines only. */
  lemma {:induction false} ScanSameShape(a: seq<string>, b: seq<string>)
    requires SameTrims(a, b)
    ensures SameShape(Scan(START, a), Scan(START, b))
  {
    if a != [] {
      ScanSameShape(a[..|a| - 1], b[..|b| - 1]);
    }
  }

  lemma TrimEndsSame(g: seq<string>)
    requires g != []
    ensures SameTrims(g, TrimEnds(g))
  {
    TrimIdempotent(g[0]);
    var h := [TrimLeft(g[0])] + g[1..];
    TrimIdempotent(h[|h| - 1]);
    ReplacedFirst(g, TrimLeft(g[0]));
    ReplacedLast(h, TrimRight(h[|h| - 1]));
  }

  lemma ReplacedFirst(g: seq<string>, line: string)
    requires g != [] && Trim(line) == Trim(g[0])
    ensures SameTrims(g, [line] + g[1..])
  {
  }

  lemma ReplacedLast(g: seq<string>, line: string)
    requires g != [] && Trim(line) == Trim(g[|g| - 1])
    ensures SameTrims(g, g[..|g| - 1] + [line])
  {
  }

  /** A closed group without its outer blanks is closed. */
  lemma TrimEndsClosed(g: seq<string>)
    requires Closed(g)
    ensures g != [] && Closed(TrimEnds(g))
  {
    ClosedHasNoNoise(g);
    var t := TrimEnds(g);
    TrimEndsSame(g);
    ScanSameShape(g, t);
    var m := Scan(START, t);
    assert |m.done| == 1 && m.open == [] && !m.inTrigger;
    forall i | 0 <= i < |t| ensures !IsNoise(t[i]) {
      assert Trim(g[i]) == Trim(t[i]);
    }
    SignificantNone(t);
    ScanConserves(START, t);
    var only := m.done[0];
    assert m.done == [] + [only];
    ConcatSnoc([], only);
    assert Concat(m.done) + [] == only && [] + [] + t == t;
    assert only == t;
  }

  lemma TrimEndsTidy(g: seq<string>)
    requires Closed(g) && AllOneLine(g)
    ensures g != [] && Tidy(TrimEnds(g))
  {
    ClosedHasNoNoise(g);
    var t := TrimEnds(g);
    TrimEndsSame(g);
    forall i | 0 <= i < |t| ensures Trim(t[i]) != "" && OneLine(t[i]) {
      assert Trim(g[i]) == Trim(t[i]);
      TrimLeftShape(g[0]);
      var h := [TrimLeft(g[0])] + g[1..];
      TrimRightShape(h[|h| - 1]);
    }
    TrimmedEnds(g);
  }

  lemma TrimmedEnds(g: seq<string>)
    requires g != [] && Trim(g[0]) != ""
    ensures var t := TrimEnds(g); TrimLeft(t[0]) == t[0] && TrimRight(t[|t| - 1]) == t[|t| - 1]
  {
    var a := TrimLeft(g[0]);
    TrimLeftShape(g[0]);
    var h := [a] + g[1..];
    TrimRightShape(h[|h| - 1]);
    if |g| == 1 {
      TrimBlank(g[0]);
      var k: nat :| k <= |a| && TrimRight(a) == a[..k];
    }
  }

  lemma {:induction false} JoinPrinted(groups: seq<seq<string>>)
    requires groups != [] && forall i :: 0 <= i < |groups| ==> groups[i] != []
    ensures Concat(groups) != [] && JoinLines(Printed(groups)) == JoinLines(Concat(groups))
  {
    var n := |groups| - 1;
    var front, last := groups[..n], groups[n];
    assert Printed(groups) == Printed(front) + [JoinLines(last)];
    if n > 0 {
      JoinPrinted(front);
      JoinConcat(Printed(front), [JoinLines(last)]);
      JoinConcat(Concat(front), last);
    } else {
      assert Concat(groups) == last;
      assert Printed(groups) == [JoinLines(last)];
    }
  }

  lemma {:induction false} ConcatOneLine(groups: seq<seq<string>>)
    requires forall i :: 0 <= i < |groups| ==> AllOneLine(groups[i])
    ensures AllOneLine(Concat(groups))
  {
    if groups != [] {
      ConcatOneLine(groups[..|groups| - 1]);
    }
  }

  lemma {:induction false} SignificantOneLine(lines: seq<string>)
    requires AllOneLine(lines)
    ensures AllOneLine(Significant(lines))
  {
    if lines != [] {
      SignificantOneLine(lines[..|lines| - 1]);
    }
  }

  lemma {:induction false} PartsOneLine(groups: seq<seq<string>>)
    requires AllOneLine(Concat(groups))
    ensures forall i :: 0 <= i < |groups| ==> AllOneLine(groups[i])
  {
    if groups != [] {
      var n := |groups| - 1;
      var front := Concat(groups[..n]);
      forall i | 0 <= i < |front| ensures OneLine(front[i]) {
        assert Concat(groups)[i] == front[i];
      }
      forall i | 0 <= i < |groups[n]| ensures OneLine(groups[n][i]) {
        assert Concat(groups)[|front| + i] == groups[n][i];
      }
      PartsOneLine(groups[..n]);
    }
  }

  /** Closed, tidy groups come back when their printed form is split. */
  lemma SplitPrinted(groups: seq<seq<string>>)
    requires forall i :: 0 <= i < |groups| ==> Tidy(groups[i]) && Closed(groups[i])
    ensures Split(JoinLines(Printed(groups))) == Printed(groups)
  {
    if groups == [] {
      SplitOneLine("");
      assert Scan(START, [""]) == START by { assert [""][..0] == []; }
    } else {
      JoinPrinted(groups);
      ConcatOneLine(groups);
      SplitJoin(Concat(groups));
      ScanGroups(groups);
      StatementsPrinted(groups);
    }
  }

  function AllTrimmed(groups: seq<seq<string>>): seq<seq<string>>
    requires forall i :: 0 <= i < |groups| ==> groups[i] != []
  {
    seq(|groups|, i requires 0 <= i < |groups| => TrimEnds(groups[i]))
  }

  /** For every input, joining the statements by newlines and splitting again gives the same list. */
  lemma {:induction false} SplitAgain(sql: string)
    ensures Split(JoinLines(Split(sql))) == Split(sql)
  {
    var groups := Scan(START, SplitLines(sql)).done;
    SplitScans(sql);
    DoneOneLine(sql);
    TrimmedGroups(groups);
    SplitPrinted(AllTrimmed(groups));
  }

  /** The statements of closed groups are their printed forms without the outer blanks. */
  lemma TrimmedGroups(groups: seq<seq<string>>)
    requires forall i :: 0 <= i < |groups| ==> Closed(groups[i]) && AllOneLine(groups[i])
    ensures forall i :: 0 <= i < |groups| ==> groups[i] != []
    ensures var trimmed := AllTrimmed(groups);
            && Statements(groups) == Printed(trimmed)
            && forall i :: 0 <= i < |trimmed| ==> Tidy(trimmed[i]) && Closed(trimmed[i])
  {
    forall i | 0 <= i < |groups|
      ensures groups[i] != [] && Tidy(TrimEnds(groups[i])) && Closed(TrimEnds(groups[i]))
      ensures Trim(Terminated(groups[i])) == JoinLines(TrimEnds(groups[i]))
    {
      ClosedHasNoNoise(groups[i]);
      TrimEndsTidy(groups[i]);
      TrimEndsClosed(groups[i]);
      StatementText(groups[i]);
    }
    StatementsAt(groups);
  }

  lemma DoneOneLine(sql: string)
    ensures forall i :: 0 <= i < |Scan(START, SplitLines(sql)).done| ==>
              AllOneLine(Scan(START, SplitLines(sql)).done[i])
  {
    var m := Scan(START, SplitLines(sql));
    SplitScans(sql);
    SplitIsOneLine(sql);
    SignificantOneLine(SplitLines(sql));
    var all := Significant(SplitLines(sql));
    forall i | 0 <= i < |Concat(m.done)| ensures OneLine(Concat(m.done)[i]) {
      assert all[i] == Concat(m.done)[i];
    }
    PartsOneLine(m.done);
  }

  // ----- The lines, character by character -----

  ghost predicate AllSpace(s: string) {
    forall i :: 0 <= i < |s| ==> IsSpace(s[i])
  }

  /** Only spaces stand before place i. */
  ghost predicate Indent(line: string, i: nat) {
    i <= |line| && AllSpace(line[..i])
  }

  /** The same letter in either case; two letters beyond ASCII have an upper case in it. */
  predicate SameLetter(c: char, upper: char) {
    || c == upper
    || ('A' <= upper <= 'Z' && c as int == upper as int + 32)
    || (upper == 'I' && c as int == 0x131) || (upper == 'S' && c as int == 0x17F)
  }

  /** The words stand at place i, in either case; no lower-case letters are asked for. */
  ghost predicate StandAt(line: string, i: nat, text: string) {
    i + |text| <= |line| && forall k :: 0 <= k < |text| ==> SameLetter(line[i + k], text[k])
  }

  /** The words stand behind the indent. */
  ghost predicate Begins(line: string, text: string) {
    exists i: nat :: Indent(line, i) && StandAt(line, i, text)
  }

  ghost predicate InCapitals(text: string) {
    forall k :: 0 <= k < |text| ==> !('a' <= text[k] <= 'z') && text[k] as int < 0x80
  }

  ghost predicate EndsFirmly(text: string) {
    text != "" && !IsSpace(text[0]) && !IsSpace(text[|text| - 1])
  }

  lemma {:induction false} TrimLeftDrops(s: string) returns (i: nat)
    ensures Indent(s, i) && s[i..] == TrimLeft(s)
  {
    i := 0;
    if s != "" && IsSpace(s[0]) {
      var k := TrimLeftDrops(s[1..]);
      i := k + 1;
      forall j | 0 <= j < i ensures IsSpace(s[..i][j]) {
        assert j > 0 ==> s[..i][j] == s[1..][..k][j - 1];
      }
    }
  }

  /** Behind an indent trimming on the left starts at the first other character. */
  lemma TrimLeftAt(line: string, i: nat)
    requires Indent(line, i) && i < |line| && !IsSpace(line[i])
    ensures TrimLeft(line) == line[i..]
  {
    BlankBothWays(line[..i]);
    TrimLeftConcat(line[..i], line[i..]);
    assert line == line[..i] + line[i..];
  }

  /** A text that ends firmly in both ends begins the trimmed line exactly when it stands behind an indent. */
  lemma PrefixIff(line: string, text: string)
    requires EndsFirmly(text)
    ensures HasPrefix(Trim(line), text) <==> exists i: nat :: Indent(line, i) && HasPrefix(line[i..], text)
  {
    if HasPrefix(Trim(line), text) {
      var i := TrimLeftDrops(line);
      var b := TrimRightDrops(TrimLeft(line));
      PrefixOfMore(Trim(line), b, text);
    }
    if i: nat :| Indent(line, i) && HasPrefix(line[i..], text) {
      PrefixBehindIndent(line, i, text);
    }
  }

  lemma PrefixBehindIndent(line: string, i: nat, text: string)
    requires EndsFirmly(text) && Indent(line, i) && HasPrefix(line[i..], text)
    ensures HasPrefix(Trim(line), text)
  {
    assert line[i..][0] == text[0];
    TrimLeftAt(line, i);
    var rest := line[i..][|text|..];
    assert line[i..] == text + rest;
    TrimRightConcat(text, rest);
    FirmStays(text);
    PrefixOfMore(text, TrimRight(rest), text);
  }

  lemma PrefixOfMore(a: string, b: string, text: string)
    requires HasPrefix(a, text)
    ensures HasPrefix(a + b, text)
  {
  }

  lemma FirmStays(text: string)
    requires EndsFirmly(text)
    ensures TrimRight(text) == text
  {
  }

  lemma UpperSame(c: char, upper: char)
    requires !('a' <= upper <= 'z') && upper as int < 0x80
    ensures UpperChar(c) == upper <==> SameLetter(c, upper)
  {
  }

  lemma UpperStands(x: string, i: nat, text: string)
    requires i + |text| <= |x| && InCapitals(text)
    ensures Upper(x)[i..i + |text|] == text <==> StandAt(x, i, text)
  {
    var part := Upper(x)[i..i + |text|];
    forall k | 0 <= k < |text| ensures part[k] == text[k] <==> SameLetter(x[i + k], text[k]) {
      UpperSame(x[i + k], text[k]);
    }
    if part == text {
      forall k | 0 <= k < |text| ensures SameLetter(x[i + k], text[k]) {
        assert part[k] == text[k];
      }
    }
  }

  /** A line is noise exactly when it has only spaces, or a comment behind its indent. */
  lemma NoiseIff(line: string)
    ensures IsNoise(line) <==> AllSpace(line) || exists i: nat :: Indent(line, i) && HasPrefix(line[i..], "--")
  {
    TrimBlank(line);
    PrefixIff(line, "--");
  }

  /** A line ends a statement exactly when a semicolon is its last character but spaces. */
  lemma EndsIff(line: string)
    ensures EndsStatement(line) <==> exists i :: 0 <= i < |line| && line[i] == ';' && AllSpace(line[i + 1..])
  {
    if EndsStatement(line) {
      var t := TrimLeftDrops(line);
      var b := TrimRightDrops(TrimLeft(line));
      var n := |Trim(line)| - 1;
      BlankBothWays(b);
      assert line[t..] == Trim(line) + b;
      assert Trim(line)[n..][0] == ';';
      assert line[t + n] == line[t..][n] == ';';
      assert line[t + n + 1..] == line[t..][n + 1..] == b;
    }
    if i :| 0 <= i < |line| && line[i] == ';' && AllSpace(line[i + 1..]) {
      SemicolonLast(line, i);
    }
  }

  lemma SemicolonLast(line: string, i: nat)
    requires i < |line| && line[i] == ';' && AllSpace(line[i + 1..])
    ensures EndsStatement(line)
  {
    var front := line[..i + 1];
    assert line == front + line[i + 1..];
    BlankBothWays(line[i + 1..]);
    TrimAddBlank(front, line[i + 1..]);
    assert front[i] == ';' && front == line[..i] + [';'];
    TrimLeftConcat(line[..i], [';']);
    var left := TrimLeft(front);
    assert left != "" && left[|left| - 1] == ';';
    assert TrimRight(left) == left;
  }

  /** A line opens a trigger exactly when one of the two phrases stands behind its indent, in either case. */
  lemma OpensIff(line: string)
    ensures OpensTrigger(line) <==>
              Begins(line, "CREATE TRIGGER") || Begins(line, "CREATE OR REPLACE TRIGGER")
  {
    PhraseIff(line, "CREATE TRIGGER");
    PhraseIff(line, "CREATE OR REPLACE TRIGGER");
  }

  lemma PhraseIff(line: string, text: string)
    requires InCapitals(text) && EndsFirmly(text)
    ensures HasPrefix(Upper(Trim(line)), text) <==> Begins(line, text)
  {
    if HasPrefix(Upper(Trim(line)), text) {
      PhraseFound(line, text);
    }
    if i: nat :| Indent(line, i) && StandAt(line, i, text) {
      PhraseStands(line, i, text);
    }
  }

  lemma PhraseFound(line: string, text: string)
    requires InCapitals(text) && EndsFirmly(text) && HasPrefix(Upper(Trim(line)), text)
    ensures Begins(line, text)
  {
    var x, n := Trim(line), |text|;
    assert Upper(x)[0..n] == text;
    UpperStands(x, 0, text);
    var part := x[..n];
    FirmInAnyCase(part, text);
    PrefixIff(line, part);
    var i: nat :| Indent(line, i) && HasPrefix(line[i..], part);
    assert forall k :: 0 <= k < n ==> line[i + k] == line[i..][..n][k] == part[k] == x[k];
    assert StandAt(line, i, text);
  }

  lemma PhraseStands(line: string, i: nat, text: string)
    requires InCapitals(text) && EndsFirmly(text) && Indent(line, i) && StandAt(line, i, text)
    ensures HasPrefix(Upper(Trim(line)), text)
  {
    var x, n := Trim(line), |text|;
    var part := line[i..i + n];
    FirmInAnyCase(part, text);
    assert HasPrefix(line[i..], part);
    PrefixBehindIndent(line, i, part);
    assert x[..n] == part;
    assert forall k :: 0 <= k < n ==> x[k] == part[k] == line[i + k];
    UpperStands(x, 0, text);
    assert Upper(x)[0..n] == Upper(x)[..n];
  }

  lemma FirmInAnyCase(part: string, text: string)
    requires |part| == |text| && InCapitals(text) && EndsFirmly(text) && StandAt(part, 0, text)
    ensures EndsFirmly(part)
  {
    assert SameLetter(part[0 + 0], text[0]) && SameLetter(part[0 + (|text| - 1)], text[|text| - 1]);
  }

  /** A line closes a trigger exactly when it is END; in either case, between spaces. */
  lemma ClosesIff(line: string)
    ensures ClosesTrigger(line) <==>
              exists i: nat :: Indent(line, i) && StandAt(line, i, "END;") && AllSpace(line[i + 4..])
  {
    if ClosesTrigger(line) {
      var i := TrimLeftDrops(line);
      var b := TrimRightDrops(TrimLeft(line));
      BlankBothWays(b);
      assert line[i..] == Trim(line) + b;
      UpperStands(Trim(line), 0, "END;");
      assert Upper(Trim(line))[0..4] == Upper(Trim(line));
      assert forall k :: 0 <= k < 4 ==> line[i + k] == line[i..][k] == Trim(line)[k];
      assert StandAt(line, i, "END;");
      assert line[i + 4..] == line[i..][4..] == b;
    }
    if i: nat :| Indent(line, i) && StandAt(line, i, "END;") && AllSpace(line[i + 4..]) {
      EndBetweenSpaces(line, i);
    }
  }

  lemma EndBetweenSpaces(line: string, i: nat)
    requires Indent(line, i) && StandAt(line, i, "END;") && AllSpace(line[i + 4..])
    ensures ClosesTrigger(line)
  {
    var part := line[i..i + 4];
    FirmInAnyCase(part, "END;");
    assert part[0] == line[i];
    TrimLeftAt(line, i);
    assert line[i..] == part + line[i + 4..];
    BlankBothWays(line[i + 4..]);
    TrimRightConcat(part, line[i + 4..]);
    FirmStays(part);
    assert Trim(line) == part;
    UpperStands(part, 0, "END;");
    assert Upper(part)[0..4] == Upper(part);
  }
}
