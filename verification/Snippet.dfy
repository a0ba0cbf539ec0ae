/** The excerpt shown with a search result: buildSnippet of internal/store/sqlite/search.go.  A character
    stands for a byte. */
module Snippet {
  import opened Tables
  import opened Text

  /** What the snippet needs of the Go library: lowercasing, splitting into fields, and case-insensitive
      search for a literal, which compiles unless the literal is not UTF-8. */
  datatype Library = Library(
    lower: string -> string,
    fields: string -> seq<string>,
    compiles: string -> bool,
    matchAt: (string, string, nat) -> nat)

  // ----- Where the excerpt lies -----

  predicate OccursAt(s: string, w: string, i: nat) {
    i + |w| <= |s| && s[i..i + |w|] == w
  }

  /** strings.Index: the leftmost occurrence. */
  function Index(s: string, w: string): (r: Option<nat>)
    ensures r.Some? ==> OccursAt(s, w, r.value) && forall j: nat :: j < r.value ==> !OccursAt(s, w, j)
    ensures r.None? ==> forall j: nat :: !OccursAt(s, w, j)
  {
    IndexFrom(s, w, 0)
  }

  function IndexFrom(s: string, w: string, i: nat): (r: Option<nat>)
    requires i <= |s| + 1
    ensures r.Some? ==> r.value >= i && OccursAt(s, w, r.value)
    ensures r.Some? ==> forall j: nat :: i <= j < r.value ==> !OccursAt(s, w, j)
    ensures r.None? ==> forall j: nat :: i <= j ==> !OccursAt(s, w, j)
    decreases |s| + 1 - i
  {
    if i > |s| then None
    else if OccursAt(s, w, i) then Some(i)
    else IndexFrom(s, w, i + 1)
  }

  datatype Hit = NoHit | Hit(word: string, at: nat)

  /** The first word, in the order of the query, that occurs at all; where it occurs first. */
  function FirstHit(lib: Library, lowered: string, words: seq<string>): Hit {
    if words == [] then NoHit
    else
      var w := lib.lower(words[0]);
      var at := Index(lowered, w);
      if w != "" && at.Some? then Hit(w, at.value) else FirstHit(lib, lowered, words[1..])
  }

  function Start(hit: Hit): nat {
    if hit.NoHit? || hit.at < 50 then 0 else hit.at - 50
  }

  function End(hit: Hit, size: nat): nat {
    if Start(hit) + 200 < size then Start(hit) + 200 else size
  }

  // ----- Escaping -----

  function EscapeChar(c: char): string {
    match c
    case '&' => "&amp;"
    case '\'' => "&#39;"
    case '<' => "&lt;"
    case '>' => "&gt;"
    case '"' => "&#34;"
    case _ => [c]
  }

  /** html.EscapeString. */
  function Escape(s: string): string {
    if s == "" then "" else EscapeChar(s[0]) + Escape(s[1..])
  }

  // ----- Marking -----

  /** ReplaceAllStringFunc: the leftmost matches from i on that do not overlap, each between tags. */
  function Mark(lib: Library, w: string, s: string, i: nat): string
    requires i <= |s|
    decreases |s| - i
  {
    if i == |s| then ""
    else
      var n := lib.matchAt(w, s, i);
      if 0 < n <= |s| - i then "<mark>" + s[i..i + n] + "</mark>" + Mark(lib, w, s, i + n)
      else [s[i]] + Mark(lib, w, s, i + 1)
  }

  function MarkWord(lib: Library, w: string, s: string): string {
    if w == "" || !lib.compiles(Escape(w)) then s else Mark(lib, Escape(w), s, 0)
  }

  function MarkWords(lib: Library, words: seq<string>, s: string): string {
    if words == [] then s else MarkWord(lib, words[|words| - 1], MarkWords(lib, words[..|words| - 1], s))
  }

  /** None is the panic of a slice whose start lies behind its end. */
  function SnippetOf(lib: Library, body: string, query: string): Option<string> {
    var words := lib.fields(query);
    var hit := FirstHit(lib, lib.lower(body), words);
    if Start(hit) > End(hit, |body|) then None
    else Some(MarkWords(lib, words, Escape(body[Start(hit)..End(hit, |body|)])))
  }

  /** No word before place i has occurred: the hit comes from there on. */
  ghost predicate HitFrom(lib: Library, lowered: string, words: seq<string>, i: nat, hit: Hit) {
    i <= |words| && hit == FirstHit(lib, lowered, words[i..])
  }

  lemma HitHere(lib: Library, lowered: string, words: seq<string>, i: nat, hit: Hit)
    requires i < |words| && HitFrom(lib, lowered, words, i, hit)
    ensures var w := lib.lower(words[i]);
            if w != "" && Index(lowered, w).Some? then hit == Hit(w, Index(lowered, w).value)
            else HitFrom(lib, lowered, words, i + 1, hit)
  {
    assert words[i..][0] == words[i] && words[i..][1..] == words[i + 1..];
  }

  lemma HitBounds(lib: Library, lowered: string, words: seq<string>, hit: Hit)
    ensures HitFrom(lib, lowered, words, 0, hit) <==> hit == FirstHit(lib, lowered, words)
    ensures HitFrom(lib, lowered, words, |words|, hit) ==> hit == NoHit
  {
    assert words[0..] == words && words[|words|..] == [];
  }

  /** The words before place i are marked. */
  ghost predicate MarkedUpTo(lib: Library, words: seq<string>, i: nat, plain: string, snippet: string) {
    i <= |words| && snippet == MarkWords(lib, words[..i], plain)
  }

  lemma MarkNext(lib: Library, words: seq<string>, i: nat, plain: string, snippet: string)
    requires i < |words| && MarkedUpTo(lib, words, i, plain, snippet)
    ensures MarkedUpTo(lib, words, i + 1, plain, MarkWord(lib, words[i], snippet))
  {
    assert words[..i + 1][..i] == words[..i] && words[..i + 1][i] == words[i];
  }

  lemma MarkBounds(lib: Library, words: seq<string>, plain: string, snippet: string)
    ensures MarkedUpTo(lib, words, 0, plain, plain)
    ensures MarkedUpTo(lib, words, |words|, plain, snippet) <==> snippet == MarkWords(lib, words, plain)
  {
    assert words[..|words|] == words;
  }

  method BuildSnippet(lib: Library, body: string, query: string) returns (result: Option<string>)
    ensures result == SnippetOf(lib, body, query)
  {
    var words := lib.fields(query);
    var lowered := lib.lower(body);
    var start := 0;
    ghost var hit := FirstHit(lib, lowered, words);
    HitBounds(lib, lowered, words, hit);
    for i := 0 to |words|
      invariant HitFrom(lib, lowered, words, i, hit)
      invariant start == 0
    {
      HitHere(lib, lowered, words, i, hit);
      var w := lib.lower(words[i]);
      if w == "" {
        continue;
      }
      var idx := Index(lowered, w);
      if idx.Some? {
        var s: int := idx.value;
        s := s - 50;
        if s < 0 {
          s := 0;
        }
        start := s;
        break;
      }
    }
    assert start == Start(hit);
    var end := start + 200;
    if end > |body| {
      end := |body|;
    }
    if start > end {
      return None;
    }
    var snippet := Escape(body[start..end]);
    ghost var plain := snippet;
    MarkBounds(lib, words, plain, plain);
    for i := 0 to |words|
      invariant MarkedUpTo(lib, words, i, plain, snippet)
    {
      MarkNext(lib, words, i, plain, snippet);
      if words[i] == "" || !lib.compiles(Escape(words[i])) {
        continue;
      }
      snippet := Mark(lib, Escape(words[i]), snippet, 0);
    }
    MarkBounds(lib, words, plain, snippet);
    result := Some(snippet);
  }

  // ----- The excerpt -----

  predicate Occurs(lib: Library, lowered: string, word: string) {
    lib.lower(word) != "" && Index(lowered, lib.lower(word)).Some?
  }

  /** The excerpt is placed by word k: no word before it occurs, and it occurs no further left. */
  ghost predicate PlacedBy(lib: Library, lowered: string, words: seq<string>, hit: Hit, k: nat) {
    && hit.Hit? && k < |words| && hit.word == lib.lower(words[k]) && hit.word != ""
    && OccursAt(lowered, hit.word, hit.at) && (forall j: nat :: j < hit.at ==> !OccursAt(lowered, hit.word, j))
    && (forall i :: 0 <= i < k ==> !Occurs(lib, lowered, words[i]))
  }

  /** The excerpt is placed by the first word of the query that occurs, at its leftmost occurrence;
      by none exactly when none occurs. */
  lemma {:induction false} FirstHitFound(lib: Library, lowered: string, words: seq<string>)
    ensures var hit := FirstHit(lib, lowered, words);
            if hit.NoHit? then forall i :: 0 <= i < |words| ==> !Occurs(lib, lowered, words[i])
            else exists k: nat :: PlacedBy(lib, lowered, words, hit, k)
  {
    if words != [] {
      var hit := FirstHit(lib, lowered, words);
      if Occurs(lib, lowered, words[0]) {
        assert PlacedBy(lib, lowered, words, hit, 0);
      } else {
        FirstHitFound(lib, lowered, words[1..]);
        if hit.NoHit? {
          forall i | 0 <= i < |words| ensures !Occurs(lib, lowered, words[i]) {
            assert i > 0 ==> words[1..][i - 1] == words[i];
          }
        } else {
          var k: nat :| PlacedBy(lib, lowered, words[1..], hit, k);
          PlacedOneLater(lib, lowered, words, hit, k);
        }
      }
    }
  }

  lemma PlacedOneLater(lib: Library, lowered: string, words: seq<string>, hit: Hit, k: nat)
    requires words != [] && !Occurs(lib, lowered, words[0]) && PlacedBy(lib, lowered, words[1..], hit, k)
    ensures PlacedBy(lib, lowered, words, hit, k + 1)
  {
    forall i | 0 <= i < k + 1 ensures !Occurs(lib, lowered, words[i]) {
      assert i > 0 ==> words[1..][i - 1] == words[i];
    }
  }

  /** Slicing goes wrong exactly when the word is found more than fifty bytes behind the end of the body:
      lowercasing may lengthen a text. */
  lemma {:induction false} PanicsIff(lib: Library, body: string, query: string)
    ensures var hit := FirstHit(lib, lib.lower(body), lib.fields(query));
            SnippetOf(lib, body, query).None? <==> hit.Hit? && hit.at > |body| + 50
  {
  }

  /** When lowercasing does not lengthen the body there is always an excerpt, of at most 200 bytes.  It
      begins at most 50 bytes before the word found, and holds all of it exactly when the word ends
      within the 200 bytes and the body. */
  lemma ExcerptBounds(lib: Library, body: string, query: string)
    requires |lib.lower(body)| <= |body|
    ensures var hit := FirstHit(lib, lib.lower(body), lib.fields(query));
            var start, end := Start(hit), End(hit, |body|);
            && SnippetOf(lib, body, query).Some?
            && 0 <= start <= end <= |body| && end - start <= 200
            && (end - start < 200 ==> end == |body|)
            && (hit.NoHit? ==> start == 0)
            && (hit.Hit? ==> start <= hit.at <= start + 50
                             && (|hit.word| <= 150 ==> hit.at + |hit.word| <= end)
                             && (hit.at + |hit.word| <= end <==> hit.at + |hit.word| <= start + 200))
  {
    HitOccurs(lib, lib.lower(body), lib.fields(query));
  }

  lemma HitOccurs(lib: Library, lowered: string, words: seq<string>)
    ensures var hit := FirstHit(lib, lowered, words); hit.Hit? ==> hit.word != "" && OccursAt(lowered, hit.word, hit.at)
  {
    FirstHitFound(lib, lowered, words);
  }

  /** Lowercasing byte by byte, as on ASCII text. */
  ghost predicate Pointwise(lib: Library, fold: char -> char) {
    forall s: string :: |lib.lower(s)| == |s| && forall i :: 0 <= i < |s| ==> lib.lower(s)[i] == fold(s[i])
  }

  /** Then the excerpt of the body, lowercased, has the word in its place, exactly when the word ends within
      the 200 bytes. */
  lemma {:induction false} ExcerptHoldsWord(lib: Library, fold: char -> char, body: string, query: string)
    requires Pointwise(lib, fold)
    ensures var hit := FirstHit(lib, lib.lower(body), lib.fields(query));
            var start, end := Start(hit), End(hit, |body|);
            hit.Hit? ==>
              && 0 <= start <= end <= |body| && start <= hit.at
              && (OccursAt(lib.lower(body[start..end]), hit.word, hit.at - start)
                  <==> hit.at + |hit.word| <= start + 200)
  {
    var hit := FirstHit(lib, lib.lower(body), lib.fields(query));
    HitOccurs(lib, lib.lower(body), lib.fields(query));
    if hit.Hit? {
      var start, end := Start(hit), End(hit, |body|);
      ExcerptBounds(lib, body, query);
      SameInside(lib, fold, body, start, end, hit.word, hit.at);
    }
  }

  lemma SameInside(lib: Library, fold: char -> char, body: string, start: nat, end: nat, w: string, at: nat)
    requires Pointwise(lib, fold) && start <= end <= |body| && start <= at && OccursAt(lib.lower(body), w, at)
    ensures OccursAt(lib.lower(body[start..end]), w, at - start) <==> at + |w| <= end
  {
    var lowered, low := lib.lower(body), lib.lower(body[start..end]);
    forall i | 0 <= i < |low| ensures low[i] == lowered[start + i] {
      assert low[i] == fold(body[start..end][i]) && lowered[start + i] == fold(body[start + i]);
    }
    PartOccurs(lowered, low, start, w, at);
  }

  lemma PartOccurs(s: string, part: string, start: nat, w: string, at: nat)
    requires start + |part| <= |s| && part == s[start..start + |part|]
    requires start <= at && OccursAt(s, w, at)
    ensures OccursAt(part, w, at - start) <==> at + |w| <= start + |part|
  {
    var from := at - start;
    if at + |w| <= start + |part| {
      assert part[from..from + |w|] == s[at..at + |w|];
    }
  }

  // ----- Lowercasing that lengthens -----

  /** The letter U+023A, as two bytes, has a lowercase of three: U+2C65. */
  const UPPER := [0xC8 as char, 0xBA as char]
  const LOWER := [0xE2 as char, 0xB1 as char, 0xA5 as char]

  function LowerBytes(s: string): string {
    if s == "" then ""
    else if HasPrefix(s, UPPER) then LOWER + LowerBytes(s[2..])
    else if 'A' <= s[0] <= 'Z' then [(s[0] as int + 32) as char] + LowerBytes(s[1..])
    else [s[0]] + LowerBytes(s[1..])
  }

  function Times(k: nat, letter: string): string {
    if k == 0 then "" else letter + Times(k - 1, letter)
  }

  const OneWord := Library(
    s => LowerBytes(s), (s: string) => [s], (s: string) => true, (w: string, s: string, i: nat) => 0)

  lemma {:induction false} LowerTimes(k: nat)
    ensures LowerBytes(Times(k, UPPER) + " x") == Times(k, LOWER) + " x"
  {
    if k == 0 {
      LowerX();
      assert LowerBytes(" x") == " x" by { assert !HasPrefix(" x", UPPER) && " x"[1..] == "x"; }
      assert Times(0, UPPER) + " x" == " x" && Times(0, LOWER) + " x" == " x";
    } else {
      LowerTimes(k - 1);
      LowerUpper(Times(k - 1, UPPER) + " x");
      assert Times(k, UPPER) + " x" == UPPER + (Times(k - 1, UPPER) + " x");
      assert Times(k, LOWER) + " x" == LOWER + (Times(k - 1, LOWER) + " x");
    }
  }

  lemma LowerUpper(s: string)
    ensures LowerBytes(UPPER + s) == LOWER + LowerBytes(s)
  {
    assert HasPrefix(UPPER + s, UPPER) && (UPPER + s)[2..] == s;
  }

  lemma {:induction false} TimesShape(k: nat, letter: string)
    ensures |Times(k, letter)| == k * |letter|
    ensures 'x' !in letter ==> 'x' !in Times(k, letter)
  {
    if k > 0 {
      TimesShape(k - 1, letter);
      assert k * |letter| == (k - 1) * |letter| + |letter|;
    }
  }

  /** A text of k such letters and the word "x", searched for "x": cutting the excerpt panics for 52 letters and
      more, and for no fewer. */
  lemma {:induction false} LengtheningPanics(k: nat)
    ensures SnippetOf(OneWord, Times(k, UPPER) + " x", "x").None? <==> k > 51
  {
    var body, lowered := Times(k, UPPER) + " x", Times(k, LOWER) + " x";
    LowerTimes(k);
    TimesShape(k, UPPER);
    TimesShape(k, LOWER);
    assert |UPPER| == 2 && |LOWER| == 3;
    LowerX();
    assert OneWord.fields("x") == ["x"];
    XAt(lowered, 3 * k + 1);
    assert FirstHit(OneWord, lowered, ["x"]) == Hit("x", 3 * k + 1);
    PanicsIff(OneWord, body, "x");
  }

  lemma LowerX()
    ensures OneWord.lower("x") == "x"
  {
    assert LowerBytes("") == "" && !HasPrefix("x", UPPER) && "x"[1..] == "";
  }

  lemma XAt(s: string, n: nat)
    requires |s| == n + 1 && s[n] == 'x' && 'x' !in s[..n]
    ensures Index(s, "x") == Some(n)
  {
    assert OccursAt(s, "x", n);
    forall j: nat | j < n ensures !OccursAt(s, "x", j) {
      assert s[..n][j] == s[j] && s[j..j + 1][0] == s[j];
    }
    var r := Index(s, "x");
    assert r.Some?;
    assert r.value <= n;
  }

  // ----- Reading an excerpt back -----

  function Unescape(s: string): string
    decreases |s|
  {
    if s == "" then ""
    else if HasPrefix(s, "&amp;") then "&" + Unescape(s[5..])
    else if HasPrefix(s, "&#39;") then "'" + Unescape(s[5..])
    else if HasPrefix(s, "&lt;") then "<" + Unescape(s[4..])
    else if HasPrefix(s, "&gt;") then ">" + Unescape(s[4..])
    else if HasPrefix(s, "&#34;") then "\"" + Unescape(s[5..])
    else [s[0]] + Unescape(s[1..])
  }

  lemma UnescapeOne(c: char, rest: string)
    ensures Unescape(EscapeChar(c) + rest) == [c] + Unescape(rest)
  {
    var e := EscapeChar(c);
    var s := e + rest;
    assert s[..|e|] == e && s[|e|..] == rest && s[0] == e[0];
    if |e| > 1 {
      assert s[1] == e[1] && s[2] == e[2];
      assert "&amp;"[1] == 'a' && "&#39;"[1] == '#' && "&lt;"[1] == 'l' && "&gt;"[1] == 'g' && "&#34;"[1] == '#';
      assert "&#39;"[2] == '3' && "&#34;"[3] == '4' && "&#39;"[3] == '9';
      assert s[3] == e[3];
    } else {
      NoEntity(s);
    }
  }

  lemma NoEntity(s: string)
    requires s != "" && s[0] != '&'
    ensures Unescape(s) == [s[0]] + Unescape(s[1..])
  {
    assert "&amp;"[0] == '&' && "&#39;"[0] == '&' && "&lt;"[0] == '&' && "&gt;"[0] == '&' && "&#34;"[0] == '&';
  }

  lemma {:induction false} UnescapeEscape(s: string)
    ensures Unescape(Escape(s)) == s
  {
    if s != "" {
      UnescapeEscape(s[1..]);
      UnescapeOne(s[0], Escape(s[1..]));
    }
  }

  /** Nothing a browser reads as a tag or the end of an attribute is left. */
  lemma {:induction false} EscapedIsInert(s: string)
    ensures forall c <- Escape(s) :: c != '<' && c != '>' && c != '"' && c != '\''
  {
    if s != "" {
      EscapedIsInert(s[1..]);
      forall c | c in Escape(s) ensures c != '<' && c != '>' && c != '"' && c != '\'' {
        assert c in EscapeChar(s[0]) || c in Escape(s[1..]);
      }
    }
  }

  /** Takes the mark tags out. */
  function Unmarked(s: string): string
    decreases |s|
  {
    if s == "" then ""
    else if HasPrefix(s, "<mark>") then Unmarked(s[6..])
    else if HasPrefix(s, "</mark>") then Unmarked(s[7..])
    else [s[0]] + Unmarked(s[1..])
  }

  lemma NoTag(s: string)
    requires s != "" && s[0] != '<'
    ensures !HasPrefix(s, "<mark>") && !HasPrefix(s, "</mark>")
  {
    assert "<mark>"[0] == '<' && "</mark>"[0] == '<';
  }

  lemma UnmarkedChar(c: char, rest: string)
    requires c != '<'
    ensures Unmarked([c] + rest) == [c] + Unmarked(rest)
  {
    NoTag([c] + rest);
    assert ([c] + rest)[1..] == rest;
  }

  lemma FirstOf(a: string, rest: string)
    requires a != ""
    ensures a + rest == [a[0]] + (a[1..] + rest)
  {
  }

  lemma {:induction false} UnmarkedPlain(a: string, rest: string)
    requires '<' !in a
    ensures Unmarked(a + rest) == a + Unmarked(rest)
  {
    if a == "" {
      assert a + rest == rest;
    } else {
      FirstOf(a, rest);
      FirstOf(a, Unmarked(rest));
      UnmarkedPlain(a[1..], rest);
      UnmarkedChar(a[0], a[1..] + rest);
    }
  }

  lemma UnmarkedTagged(a: string, rest: string)
    requires '<' !in a
    ensures Unmarked("<mark>" + a + "</mark>" + rest) == a + Unmarked(rest)
  {
    var tail := "</mark>" + rest;
    var s := "<mark>" + a + "</mark>" + rest;
    assert s[..6] == "<mark>" && s[6..] == a + tail;
    assert tail[..7] == "</mark>" && tail[7..] == rest && tail[1] == '/';
    assert "<mark>"[1] == 'm';
    UnmarkedPlain(a, tail);
  }

  lemma {:induction false} UnmarkedMark(lib: Library, w: string, s: string, i: nat)
    requires i <= |s| && '<' !in s
    ensures Unmarked(Mark(lib, w, s, i)) == s[i..]
    decreases |s| - i
  {
    if i < |s| {
      var n := lib.matchAt(w, s, i);
      if 0 < n <= |s| - i {
        UnmarkedMark(lib, w, s, i + n);
        var rest := Mark(lib, w, s, i + n);
        assert Mark(lib, w, s, i) == "<mark>" + s[i..i + n] + "</mark>" + rest;
        MatchTakenOut(s, i, n, rest);
      } else {
        UnmarkedMark(lib, w, s, i + 1);
        var rest := Mark(lib, w, s, i + 1);
        assert Mark(lib, w, s, i) == [s[i]] + rest;
        CharLeft(s, i, rest);
      }
    }
  }

  lemma MatchTakenOut(s: string, i: nat, n: nat, rest: string)
    requires i + n <= |s| && '<' !in s && Unmarked(rest) == s[i + n..]
    ensures Unmarked("<mark>" + s[i..i + n] + "</mark>" + rest) == s[i..]
  {
    UnmarkedTagged(s[i..i + n], rest);
    TailParts(s, i, n);
  }

  lemma TailParts(s: string, i: nat, n: nat)
    requires i + n <= |s|
    ensures s[i..] == s[i..i + n] + s[i + n..]
  {
  }

  lemma CharLeft(s: string, i: nat, rest: string)
    requires i < |s| && '<' !in s && Unmarked(rest) == s[i + 1..]
    ensures Unmarked([s[i]] + rest) == s[i..]
  {
    UnmarkedPlain([s[i]], rest);
    assert s[i..] == [s[i]] + s[i + 1..];
  }

  /** For a query of one word, taking the tags out and unescaping gives back the bytes excerpted. */
  lemma OneWordRoundTrip(lib: Library, body: string, query: string)
    requires |lib.fields(query)| == 1 && SnippetOf(lib, body, query).Some?
    ensures var hit := FirstHit(lib, lib.lower(body), lib.fields(query));
            Unescape(Unmarked(SnippetOf(lib, body, query).value)) == body[Start(hit)..End(hit, |body|)]
  {
    var words := lib.fields(query);
    var hit := FirstHit(lib, lib.lower(body), words);
    var text := body[Start(hit)..End(hit, |body|)];
    assert words[..0] == [];
    assert MarkWords(lib, words, Escape(text)) == MarkWord(lib, words[0], Escape(text));
    OneWordMarked(lib, words[0], text);
  }

  lemma OneWordMarked(lib: Library, w: string, text: string)
    ensures Unescape(Unmarked(MarkWord(lib, w, Escape(text)))) == text
  {
    var plain := Escape(text);
    EscapedIsInert(text);
    UnescapeEscape(text);
    UnmarkedPlain(plain, "");
    assert plain + "" == plain;
    UnmarkedMark(lib, Escape(w), plain, 0);
  }

  /** The text is left as it is exactly when the word matches nowhere in it. */
  lemma {:induction false} UnchangedIff(lib: Library, w: string, s: string, i: nat)
    requires i <= |s|
    ensures |Mark(lib, w, s, i)| >= |s| - i
    ensures Mark(lib, w, s, i) == s[i..] <==> forall j :: i <= j < |s| ==> !(0 < lib.matchAt(w, s, j) <= |s| - j)
    decreases |s| - i
  {
    if i < |s| {
      var n := lib.matchAt(w, s, i);
      assert s[i..] == [s[i]] + s[i + 1..];
      if 0 < n <= |s| - i {
        UnchangedIff(lib, w, s, i + n);
        assert |Mark(lib, w, s, i)| > |s| - i;
      } else {
        UnchangedIff(lib, w, s, i + 1);
        if Mark(lib, w, s, i) == s[i..] {
          assert Mark(lib, w, s, i)[1..] == s[i..][1..];
        }
      }
    }
  }

  // ----- Which parts are marked -----

  datatype Part = Plain(text: string) | Tagged(text: string)

  function PlainText(parts: seq<Part>): string {
    if parts == [] then "" else parts[0].text + PlainText(parts[1..])
  }

  function Shown(p: Part): string {
    if p.Tagged? then "<mark>" + p.text + "</mark>" else p.text
  }

  /** The parts as the page shows them. */
  function Rendered(parts: seq<Part>): string {
    if parts == [] then "" else Shown(parts[0]) + Rendered(parts[1..])
  }

  /** A match of the literal that is not empty begins at place i. */
  predicate MatchesAt(lib: Library, literal: string, s: string, i: nat) {
    i <= |s| && 0 < lib.matchAt(literal, s, i) <= |s| - i
  }

  /** Part k, which begins at place `from` of the text, is a match in full, or none begins in it. */
  ghost predicate RightlyMarked(lib: Library, literal: string, s: string, from: nat, p: Part) {
    match p
    case Tagged(text) => MatchesAt(lib, literal, s, from) && lib.matchAt(literal, s, from) == |text|
    case Plain(text) => forall i :: from <= i < from + |text| ==> !MatchesAt(lib, literal, s, i)
  }

  /** Read from place i on, the parts are the text, and each is marked or not as it should be. */
  ghost predicate IsMarkingFrom(lib: Library, literal: string, s: string, i: nat, parts: seq<Part>)
    decreases |parts|
  {
    if parts == [] then i == |s|
    else
      var n := |parts[0].text|;
      && i + n <= |s| && parts[0].text == s[i..i + n] && RightlyMarked(lib, literal, s, i, parts[0])
      && IsMarkingFrom(lib, literal, s, i + n, parts[1..])
  }

  /** Every tagged part is a match at its place, and none begins anywhere in the plain parts: the matches are the
      leftmost that do not overlap. */
  ghost predicate IsMarking(lib: Library, literal: string, s: string, parts: seq<Part>) {
    IsMarkingFrom(lib, literal, s, 0, parts)
  }

  /** The parts are the whole text. */
  lemma {:induction false} MarkingIsText(lib: Library, literal: string, s: string, i: nat, parts: seq<Part>)
    requires i <= |s| && IsMarkingFrom(lib, literal, s, i, parts)
    ensures PlainText(parts) == s[i..]
    decreases |parts|
  {
    if parts != [] {
      var n := |parts[0].text|;
      MarkingIsText(lib, literal, s, i + n, parts[1..]);
      ReadOn(parts, s, i);
    }
  }

  lemma ReadOn(parts: seq<Part>, s: string, i: nat)
    requires parts != [] && i + |parts[0].text| <= |s| && parts[0].text == s[i..i + |parts[0].text|]
    requires PlainText(parts[1..]) == s[i + |parts[0].text|..]
    ensures PlainText(parts) == s[i..]
  {
    TailParts(s, i, |parts[0].text|);
  }

  lemma {:induction false} SomeMarking(lib: Library, literal: string, s: string, i: nat) returns (parts: seq<Part>)
    requires i <= |s|
    ensures IsMarkingFrom(lib, literal, s, i, parts)
    decreases |s| - i
  {
    if i == |s| {
      parts := [];
    } else {
      var n := if MatchesAt(lib, literal, s, i) then lib.matchAt(literal, s, i) else 1;
      var p := if MatchesAt(lib, literal, s, i) then Tagged(s[i..i + n]) else Plain(s[i..i + n]);
      var rest := SomeMarking(lib, literal, s, i + n);
      parts := [p] + rest;
      assert parts[1..] == rest;
    }
  }

  /** Marking from place i on gives `shown`. */
  ghost predicate MarkedAs(lib: Library, literal: string, s: string, i: nat, shown: string) {
    i <= |s| && Mark(lib, literal, s, i) == shown
  }

  /** Characters in which no match begins go through as they are. */
  lemma {:induction false} MarkPlain(lib: Library, literal: string, s: string, i: nat, n: nat, rest: string)
    requires i + n <= |s| && forall j :: i <= j < i + n ==> !MatchesAt(lib, literal, s, j)
    requires MarkedAs(lib, literal, s, i + n, rest)
    ensures MarkedAs(lib, literal, s, i, s[i..i + n] + rest)
    decreases n
  {
    if n == 0 {
      NothingAhead(s, i, rest);
    } else {
      assert !MatchesAt(lib, literal, s, i);
      MarkPlain(lib, literal, s, i + 1, n - 1, rest);
      FirstApart(s, i, n, rest);
    }
  }

  lemma NothingAhead(s: string, i: nat, rest: string)
    requires i <= |s|
    ensures s[i..i] + rest == rest
  {
  }

  lemma FirstApart(s: string, i: nat, n: nat, rest: string)
    requires 0 < n && i + n <= |s|
    ensures s[i..i + n] + rest == [s[i]] + (s[i + 1..i + n] + rest)
  {
  }

  lemma MarkPart(lib: Library, literal: string, s: string, i: nat, p: Part, rest: string)
    requires i + |p.text| <= |s| && p.text == s[i..i + |p.text|] && RightlyMarked(lib, literal, s, i, p)
    requires MarkedAs(lib, literal, s, i + |p.text|, rest)
    ensures MarkedAs(lib, literal, s, i, Shown(p) + rest)
  {
    if p.Plain? {
      MarkPlain(lib, literal, s, i, |p.text|, rest);
    }
  }

  /** There is one way to mark: the parts are rendered as the loop marks them. */
  lemma {:induction false} MarkingRendered(lib: Library, literal: string, s: string, i: nat, parts: seq<Part>)
    requires IsMarkingFrom(lib, literal, s, i, parts)
    ensures MarkedAs(lib, literal, s, i, Rendered(parts))
    decreases |parts|
  {
    if parts != [] {
      MarkingRendered(lib, literal, s, i + |parts[0].text|, parts[1..]);
      MarkPart(lib, literal, s, i, parts[0], Rendered(parts[1..]));
      assert Rendered(parts) == Shown(parts[0]) + Rendered(parts[1..]);
    }
  }

  /** The word is marked: each match of its escaped form is put between tags, and nothing else is changed; a word
      that is empty, or whose literal does not compile, is passed over. */
  ghost predicate MarkedBy(lib: Library, word: string, before: string, after: string) {
    if word == "" || !lib.compiles(Escape(word)) then after == before
    else exists parts :: IsMarking(lib, Escape(word), before, parts) && after == Rendered(parts)
  }

  lemma {:induction false} WordMarked(lib: Library, word: string, s: string)
    ensures MarkedBy(lib, word, s, MarkWord(lib, word, s))
    ensures forall after :: MarkedBy(lib, word, s, after) ==> after == MarkWord(lib, word, s)
  {
    if word != "" && lib.compiles(Escape(word)) {
      var parts := SomeMarking(lib, Escape(word), s, 0);
      MarkingRendered(lib, Escape(word), s, 0, parts);
      forall after | MarkedBy(lib, word, s, after) ensures after == MarkWord(lib, word, s) {
        var others :| IsMarking(lib, Escape(word), s, others) && after == Rendered(others);
        MarkingRendered(lib, Escape(word), s, 0, others);
      }
    }
  }

  /** From text to text, each word of the query is marked in what the words before it left. */
  ghost predicate MarkedInTurn(lib: Library, words: seq<string>, texts: seq<string>) {
    |texts| == |words| + 1 && forall k :: 0 <= k < |words| ==> MarkedBy(lib, words[k], texts[k], texts[k + 1])
  }

  lemma {:induction false} TextsOf(lib: Library, words: seq<string>, s: string) returns (texts: seq<string>)
    ensures MarkedInTurn(lib, words, texts) && texts[0] == s && texts[|words|] == MarkWords(lib, words, s)
  {
    if words == [] {
      texts := [s];
    } else {
      var n := |words| - 1;
      var front := TextsOf(lib, words[..n], s);
      WordMarked(lib, words[n], front[n]);
      texts := front + [MarkWord(lib, words[n], front[n])];
      forall k | 0 <= k < |words| ensures MarkedBy(lib, words[k], texts[k], texts[k + 1]) {
        assert k < n ==> words[..n][k] == words[k];
      }
    }
  }

  lemma {:induction false} OneEnd(lib: Library, words: seq<string>, texts: seq<string>)
    requires MarkedInTurn(lib, words, texts)
    ensures texts[|words|] == MarkWords(lib, words, texts[0])
  {
    if words != [] {
      var n := |words| - 1;
      forall k | 0 <= k < n ensures MarkedBy(lib, words[..n][k], texts[..n + 1][k], texts[..n + 1][k + 1]) {
        assert words[..n][k] == words[k];
      }
      OneEnd(lib, words[..n], texts[..n + 1]);
      WordMarked(lib, words[n], texts[n]);
    }
  }

  /** The excerpt is what marking each word of the query in turn, in the escaped piece of the body, leads to; and
      nothing else is. */
  lemma {:induction false} ExcerptIsMarked(lib: Library, body: string, query: string)
    requires SnippetOf(lib, body, query).Some?
    ensures var words, hit := lib.fields(query), FirstHit(lib, lib.lower(body), lib.fields(query));
            var piece := Escape(body[Start(hit)..End(hit, |body|)]);
            && (exists texts :: MarkedInTurn(lib, words, texts) && texts[0] == piece)
            && (forall texts :: MarkedInTurn(lib, words, texts) && texts[0] == piece
                  ==> SnippetOf(lib, body, query) == Some(texts[|words|]))
  {
    var words, hit := lib.fields(query), FirstHit(lib, lib.lower(body), lib.fields(query));
    var piece := Escape(body[Start(hit)..End(hit, |body|)]);
    var some := TextsOf(lib, words, piece);
    assert MarkedInTurn(lib, words, some) && some[0] == piece;
    forall texts | MarkedInTurn(lib, words, texts) && texts[0] == piece
      ensures SnippetOf(lib, body, query) == Some(texts[|words|])
    {
      OneEnd(lib, words, texts);
    }
  }

  // ----- When something is marked -----

  /** Word k of the query is not passed over and matches at place i. */
  ghost predicate WordMatches(lib: Library, words: seq<string>, s: string, k: nat, i: nat) {
    k < |words| && words[k] != "" && lib.compiles(Escape(words[k])) && MatchesAt(lib, Escape(words[k]), s, i)
  }

  /** Some word of the query that is not passed over matches somewhere. */
  ghost predicate SomeMatch(lib: Library, words: seq<string>, s: string) {
    exists k: nat, i: nat :: WordMatches(lib, words, s, k, i)
  }

  lemma {:induction false} RenderedKeeps(parts: seq<Part>)
    ensures '<' in PlainText(parts) ==> '<' in Rendered(parts)
    ensures (exists p <- parts :: p.Tagged?) ==> '<' in Rendered(parts)
    ensures !(exists p <- parts :: p.Tagged?) ==> Rendered(parts) == PlainText(parts)
  {
    if parts != [] {
      RenderedKeeps(parts[1..]);
      assert "<mark>"[0] == '<';
      assert parts == [parts[0]] + parts[1..];
      if parts[0].Tagged? {
        assert Rendered(parts)[0] == '<';
      }
    }
  }

  lemma {:induction false} TaggedSomewhere(lib: Library, literal: string, s: string, i: nat, parts: seq<Part>)
    requires IsMarkingFrom(lib, literal, s, i, parts)
    ensures (exists p <- parts :: p.Tagged?) <==> exists j: nat :: i <= j && MatchesAt(lib, literal, s, j)
    decreases |parts|
  {
    if parts != [] {
      var p, rest := parts[0], parts[1..];
      TaggedSomewhere(lib, literal, s, i + |p.text|, rest);
      assert parts == [p] + rest;
      if p.Tagged? {
        assert p in parts && MatchesAt(lib, literal, s, i);
      }
    }
  }

  /** Marking a word shows exactly when it matches somewhere. */
  lemma {:induction false} MarkShows(lib: Library, word: string, before: string, after: string)
    requires MarkedBy(lib, word, before, after)
    ensures '<' in before ==> '<' in after
    ensures if word != "" && lib.compiles(Escape(word)) && exists i: nat :: MatchesAt(lib, Escape(word), before, i)
            then '<' in after else after == before
  {
    if word != "" && lib.compiles(Escape(word)) {
      var parts :| IsMarking(lib, Escape(word), before, parts) && after == Rendered(parts);
      MarkingIsText(lib, Escape(word), before, 0, parts);
      RenderedKeeps(parts);
      TaggedSomewhere(lib, Escape(word), before, 0, parts);
    }
  }

  lemma {:induction false} TurnsShow(lib: Library, words: seq<string>, texts: seq<string>)
    requires MarkedInTurn(lib, words, texts) && '<' !in texts[0]
    ensures if SomeMatch(lib, words, texts[0]) then '<' in texts[|words|] else texts[|words|] == texts[0]
  {
    if words != [] {
      var n := |words| - 1;
      forall k | 0 <= k < n ensures MarkedBy(lib, words[..n][k], texts[..n + 1][k], texts[..n + 1][k + 1]) {
        assert words[..n][k] == words[k];
      }
      TurnsShow(lib, words[..n], texts[..n + 1]);
      MarkShows(lib, words[n], texts[n], texts[n + 1]);
      MatchesOfLast(lib, words, texts[0]);
    }
  }

  lemma MatchesOfLast(lib: Library, words: seq<string>, s: string)
    requires words != []
    ensures var n := |words| - 1;
            SomeMatch(lib, words, s) <==>
              || SomeMatch(lib, words[..n], s)
              || (words[n] != "" && lib.compiles(Escape(words[n])) && exists i: nat ::
                 MatchesAt(lib, Escape(words[n]), s, i))
  {
    var n := |words| - 1;
    if SomeMatch(lib, words, s) {
      var k: nat, i: nat :| WordMatches(lib, words, s, k, i);
      if k < n {
        assert WordMatches(lib, words[..n], s, k, i);
      } else {
        assert MatchesAt(lib, Escape(words[n]), s, i);
      }
    }
    if SomeMatch(lib, words[..n], s) {
      var k: nat, i: nat :| WordMatches(lib, words[..n], s, k, i);
      assert WordMatches(lib, words, s, k, i);
    }
    if words[n] != "" && lib.compiles(Escape(words[n])) && exists i: nat :: MatchesAt(lib, Escape(words[n]), s, i) {
      var i: nat :| MatchesAt(lib, Escape(words[n]), s, i);
      assert WordMatches(lib, words, s, n, i);
    }
  }

  /** The excerpt has a mark exactly when some word of the query that compiles matches in the escaped piece of the
      body; otherwise it is that piece. */
  lemma {:induction false} SomethingMarkedIff(lib: Library, body: string, query: string)
    requires SnippetOf(lib, body, query).Some?
    ensures var words, hit := lib.fields(query), FirstHit(lib, lib.lower(body), lib.fields(query));
            var piece, shown := Escape(body[Start(hit)..End(hit, |body|)]), SnippetOf(lib, body, query).value;
            && ('<' in shown <==> SomeMatch(lib, words, piece))
            && ('<' !in shown ==> shown == piece)
  {
    var words, hit := lib.fields(query), FirstHit(lib, lib.lower(body), lib.fields(query));
    var piece := Escape(body[Start(hit)..End(hit, |body|)]);
    EscapedIsInert(body[Start(hit)..End(hit, |body|)]);
    var texts := TextsOf(lib, words, piece);
    TurnsShow(lib, words, texts);
  }
}
