/** The quoted reply: buildQuoteText of internal/handler/post.go.  A character stands for a rune. */
module Quote {
  import opened Text

  const LIMIT: nat := 500

  function Cut(body: string): string {
    if |body| > LIMIT then body[..LIMIT] + "..." else body
  }

  function Header(username: string): string {
    "> **" + username + " wrote:**"
  }

  function Marked(lines: seq<string>): seq<string> {
    seq(|lines|, i requires 0 <= i < |lines| => "> " + lines[i])
  }

  /** The block: the header, one marked line for each line of the body, an empty line. */
  function QuoteText(username: string, body: string): string {
    Terminated([Header(username)] + Marked(SplitLines(Cut(body)))) + "\n"
  }

  method BuildQuoteText(username: string, body: string) returns (text: string)
    ensures text == QuoteText(username, body)
  {
    var cut := body;
    if |body| > 500 {
      cut := body[..500] + "...";
    }
    var lines := SplitLines(cut);
    var b := "> **" + username + " wrote:**\n";
    assert Terminated([Header(username)]) == b by {
      assert [Header(username)][..0] == [];
      assert Header(username) + "\n" == b;
    }
    for i := 0 to |lines|
      invariant b == Terminated([Header(username)] + Marked(lines)[..i])
    {
      TerminatedSnoc([Header(username)] + Marked(lines)[..i], "> " + lines[i]);
      assert [Header(username)] + Marked(lines)[..i + 1] == [Header(username)] + Marked(lines)[..i] + ["> " + lines[i]];
      assert "> " + lines[i] + "\n" == ("> " + lines[i]) + "\n";
      b := b + ("> " + lines[i] + "\n");
    }
    assert Marked(lines)[..|lines|] == Marked(lines);
    text := b + "\n";
  }

  lemma TerminatedSnoc(lines: seq<string>, line: string)
    ensures Terminated(lines + [line]) == Terminated(lines) + (line + "\n")
  {
    assert (lines + [line])[..|lines|] == lines;
  }

  // ----- Reading a block back -----

  function Unmark(line: string): string {
    if |line| >= 2 then line[2..] else ""
  }

  function Unmarked(lines: seq<string>): seq<string> {
    seq(|lines|, i requires 0 <= i < |lines| => Unmark(lines[i]))
  }

  /** Drops the header line, the markers and the empty line behind the block. */
  function Unquote(text: string): string {
    var lines := SplitLines(text);
    if |lines| < 3 then "" else JoinLines(Unmarked(lines[1..|lines| - 2]))
  }

  /** The lines of a text that ends in an empty line. */
  lemma {:induction false} SplitTerminated(lines: seq<string>)
    requires lines != [] && AllOneLine(lines)
    ensures SplitLines(Terminated(lines) + "\n") == lines + ["", ""]
  {
    TerminatedIsJoined(lines);
    JoinConcat(lines, ["", ""]);
    assert ["", ""][1..] == [""];
    assert JoinLines(["", ""]) == "" + "\n" + "";
    assert JoinLines(lines) + "\n" + "\n" == JoinLines(lines) + "\n" + ("" + "\n" + "");
    SplitJoin(lines + ["", ""]);
  }

  lemma MarkedOneLine(lines: seq<string>)
    requires AllOneLine(lines)
    ensures AllOneLine(Marked(lines)) && Unmarked(Marked(lines)) == lines
  {
    forall i | 0 <= i < |lines| ensures Unmark(Marked(lines)[i]) == lines[i] && OneLine(Marked(lines)[i]) {
      assert ("> " + lines[i])[2..] == lines[i];
    }
  }

  /** The lines of a block, whatever newlines the name has. */
  lemma BlockLines(username: string, body: string)
    ensures SplitLines(QuoteText(username, body))
            == SplitLines(Header(username)) + Marked(SplitLines(Cut(body))) + ["", ""]
  {
    var lines := SplitLines(Cut(body));
    SplitIsOneLine(Cut(body));
    MarkedOneLine(lines);
    var head := SplitLines(Header(username));
    SplitIsOneLine(Header(username));
    JoinSplit(Header(username));
    TerminatedIsJoined([Header(username)] + Marked(lines));
    JoinConcat([Header(username)], Marked(lines));
    JoinConcat(head, Marked(lines));
    TerminatedIsJoined(head + Marked(lines));
    SplitTerminated(head + Marked(lines));
  }

  /** Joining undoes splitting. */
  lemma {:induction false} JoinSplit(s: string)
    ensures JoinLines(SplitLines(s)) == s
  {
    if s != "" {
      var rest := SplitLines(s[1..]);
      JoinSplit(s[1..]);
      if s[0] == '\n' {
        assert ([""] + rest)[1..] == rest;
      } else {
        var lines := [[s[0]] + rest[0]] + rest[1..];
        assert lines[1..] == rest[1..];
        assert [s[0]] + s[1..] == s;
      }
    }
  }

  lemma {:induction false} LinesOf(s: string)
    ensures |SplitLines(s)| == 1 <==> OneLine(s)
  {
    if s != "" {
      LinesOf(s[1..]);
    }
  }

  lemma HeaderLines(username: string)
    ensures |SplitLines(Header(username))| == 1 <==> OneLine(username)
  {
    LinesOf(Header(username));
    var h := Header(username);
    if !OneLine(username) {
      var i :| 0 <= i < |username| && username[i] == '\n';
      assert h[4 + i] == '\n';
    }
  }

  /** Dropping the header line and the markers gives back the body, or its first 500 characters and three dots
      when it is longer: exactly when the name has no newline in it. */
  lemma QuoteRoundTripIff(username: string, body: string)
    ensures Unquote(QuoteText(username, body)) == (if |body| <= 500 then body else body[..500] + "...")
       <==> OneLine(username)
  {
    var lines := SplitLines(Cut(body));
    var head := SplitLines(Header(username));
    BlockLines(username, body);
    SplitIsOneLine(Cut(body));
    MarkedOneLine(lines);
    JoinSplit(Cut(body));
    HeaderLines(username);
    var all := head + Marked(lines) + ["", ""];
    var middle := all[1..|all| - 2];
    assert middle == head[1..] + Marked(lines);
    if OneLine(username) {
      assert middle == Marked(lines);
    } else {
      SplitIsOneLine(Header(username));
      UnmarkedOneLine(middle);
      SplitJoin(Unmarked(middle));
      assert |Unmarked(middle)| > |lines|;
    }
  }

  lemma UnmarkedOneLine(lines: seq<string>)
    requires AllOneLine(lines)
    ensures AllOneLine(Unmarked(lines))
  {
    forall i | 0 <= i < |lines| ensures OneLine(Unmarked(lines)[i]) {
    }
  }

  /** Nothing of the body escapes the block: every line but the two empty ones at the end carries the
      marker, the first one names the author. */
  lemma EveryLineMarked(username: string, body: string)
    requires OneLine(username)
    ensures var all := SplitLines(QuoteText(username, body));
            && |all| == |SplitLines(if |body| <= 500 then body else body[..500] + "...")| + 3
            && all[0] == "> **" + username + " wrote:**"
            && (forall i :: 0 <= i < |all| - 2 ==> HasPrefix(all[i], "> "))
            && all[|all| - 2] == "" && all[|all| - 1] == ""
  {
    BlockLines(username, body);
    HeaderOneLine(username);
    SplitOneLine(Header(username));
    AllMarked(Header(username), SplitLines(Cut(body)));
  }

  lemma HeaderOneLine(username: string)
    requires OneLine(username)
    ensures OneLine(Header(username))
  {
  }

  lemma AllMarked(header: string, lines: seq<string>)
    requires HasPrefix(header, "> ")
    ensures var all := [header] + Marked(lines) + ["", ""];
            && |all| == |lines| + 3 && all[0] == header
            && (forall i :: 0 <= i < |all| - 2 ==> HasPrefix(all[i], "> "))
            && all[|all| - 2] == "" && all[|all| - 1] == ""
  {
    var all := [header] + Marked(lines) + ["", ""];
    forall i | 0 <= i < |all| - 2 ensures HasPrefix(all[i], "> ") {
      if i > 0 {
        assert all[i] == Marked(lines)[i - 1];
      }
    }
  }
}
