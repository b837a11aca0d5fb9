/**
 * The filter that turns the delegate's combined output into the answer shown
 * to the user (mgpt.py, call_openmanus, lines 59-79): only lines that confirm
 * a save or carry an observation record survive, an observation record is
 * reduced to its quoted body, and the survivors are trimmed and joined.
 */
module OutputExtractor {
  import opened Wrappers
  import opened Text

  const SavedMarker: string := "Content successfully saved"
  const ObservationMarker: string := "{'observation':"
  /** The two characters backslash and `n`, as the delegate prints a line break. */
  const Escape: string := "\\n"

  // ---------------------------------------------------------------------------
  // The regular expression  \{'observation':\s*'([^']*)'\}  under re.search
  // ---------------------------------------------------------------------------

  /**
   * The pattern matches `s` at position `i` and its group captures `body`:
   * the marker, any run of whitespace, a quote, a body free of quotes, then
   * a quote and a closing brace.
   */
  ghost predicate PatternAt(s: string, i: int, body: string) {
    0 <= i <= |s| && '\'' !in body &&
    exists w :: AllSpace(w) && ObservationMarker + w + "'" + body + "'}" <= s[i..]
  }

  /** The first position at or after `i` that does not hold whitespace. */
  function SkipSpaces(s: string, i: nat): (j: nat)
    requires i <= |s|
    ensures i <= j <= |s|
    ensures forall m :: i <= m < j ==> IsSpace(s[m])
    ensures j < |s| ==> !IsSpace(s[j])
    decreases |s| - i
  {
    if i < |s| && IsSpace(s[i]) then SkipSpaces(s, i + 1) else i
  }

  /** The first position at or after `i` that holds a single quote, or |s|. */
  function QuoteEnd(s: string, i: nat): (k: nat)
    requires i <= |s|
    ensures i <= k <= |s|
    ensures forall m :: i <= m < k ==> s[m] != '\''
    ensures k < |s| ==> s[k] == '\''
    decreases |s| - i
  {
    if i < |s| && s[i] != '\'' then QuoteEnd(s, i + 1) else i
  }

  /**
   * The pattern tried at one position. `\s*` and `[^']*` cannot give back
   * characters usefully (a shorter run would have to meet a quote where there
   * is whitespace or a non-quote), so the greedy runs decide the match.
   */
  function MatchAt(s: string, i: nat): Option<string>
    requires i <= |s|
  {
    if !(ObservationMarker <= s[i..]) then None
    else
      var j := SkipSpaces(s, i + |ObservationMarker|);
      if j < |s| && s[j] == '\'' then
        var k := QuoteEnd(s, j + 1);
        if k + 1 < |s| && s[k + 1] == '}' then Some(s[j + 1..k]) else None
      else None
  }

  /** A slice cut at four inner points is the concatenation of the five pieces. */
  lemma FiveSlices(s: string, a: nat, b: nat, c: nat, d: nat, e: nat, f: nat)
    requires a <= b <= c <= d <= e <= f <= |s|
    ensures s[a..f] == s[a..b] + s[b..c] + s[c..d] + s[d..e] + s[e..f]
  {
    assert s[a..f] == s[a..b] + s[b..f];
    assert s[b..f] == s[b..c] + s[c..f];
    assert s[c..f] == s[c..d] + s[d..f];
    assert s[d..f] == s[d..e] + s[e..f];
  }

  /** The pattern read off positions: marker at `i`, whitespace up to `j`, quotes at `j` and `k`, brace after. */
  lemma PatternFromPositions(s: string, i: nat, j: nat, k: nat)
    requires i + |ObservationMarker| <= j < k && k + 2 <= |s|
    requires s[i..i + |ObservationMarker|] == ObservationMarker
    requires forall m :: i + |ObservationMarker| <= m < j ==> IsSpace(s[m])
    requires s[j] == '\'' && s[k] == '\'' && s[k + 1] == '}'
    requires forall m :: j < m < k ==> s[m] != '\''
    ensures PatternAt(s, i, s[j + 1..k])
  {
    var n := |ObservationMarker|;
    var w := s[i + n..j];
    var body := s[j + 1..k];
    assert AllSpace(w) by {
      forall m | 0 <= m < |w| ensures IsSpace(w[m]) { assert w[m] == s[i + n + m]; }
    }
    assert '\'' !in body by {
      forall m | 0 <= m < |body| ensures body[m] != '\'' { assert body[m] == s[j + 1 + m]; }
    }
    assert s[j..j + 1] == "'" && s[k..k + 2] == "'}";
    FiveSlices(s, i, i + n, j, j + 1, k, k + 2);
    assert s[i..k + 2] <= s[i..];
  }

  /** A match found by MatchAt is a match of the pattern, with the same group. */
  lemma MatchAtSound(s: string, i: nat, body: string)
    requires i <= |s|
    requires MatchAt(s, i) == Some(body)
    ensures PatternAt(s, i, body)
  {
    var n := |ObservationMarker|;
    assert ObservationMarker <= s[i..];
    assert s[i..][..n] == s[i..i + n];
    var j := SkipSpaces(s, i + n);
    assert j < |s| && s[j] == '\'';
    var k := QuoteEnd(s, j + 1);
    assert k + 1 < |s| && s[k] == '\'' && s[k + 1] == '}';
    assert body == s[j + 1..k];
    PatternFromPositions(s, i, j, k);
  }

  /** The pieces of a match, read off the line. */
  lemma PatternPieces(s: string, i: nat, w: string, body: string)
    requires i <= |s|
    requires ObservationMarker + w + "'" + body + "'}" <= s[i..]
    ensures i + |ObservationMarker| + |w| + |body| + 3 <= |s|
    ensures ObservationMarker <= s[i..]
    ensures s[i + |ObservationMarker|..i + |ObservationMarker| + |w|] == w
    ensures s[i + |ObservationMarker| + |w|] == '\''
    ensures s[i + |ObservationMarker| + |w| + 1..i + |ObservationMarker| + |w| + 1 + |body|] == body
    ensures s[i + |ObservationMarker| + |w| + 1 + |body|] == '\''
    ensures s[i + |ObservationMarker| + |w| + 2 + |body|] == '}'
  {
    var n := |ObservationMarker|;
    var t := ObservationMarker + w + "'" + body + "'}";
    var u := s[i..i + |t|];
    assert u == t;
    assert t[..n] == ObservationMarker;
    assert t[n..n + |w|] == w;
    assert t[n + |w| + 1..n + |w| + 1 + |body|] == body;
  }

  /** A whitespace run ending at a non-whitespace character is what SkipSpaces skips. */
  lemma SkipSpacesTo(s: string, i: nat, p: nat)
    requires i <= p < |s|
    requires forall m :: i <= m < p ==> IsSpace(s[m])
    requires !IsSpace(s[p])
    ensures SkipSpaces(s, i) == p
  {
    var j := SkipSpaces(s, i);
    assert j <= p;
    assert j >= p;
  }

  /** A quote-free run ending at a quote is what QuoteEnd scans over. */
  lemma QuoteEndAt(s: string, i: nat, q: nat)
    requires i <= q < |s|
    requires forall m :: i <= m < q ==> s[m] != '\''
    requires s[q] == '\''
    ensures QuoteEnd(s, i) == q
  {
    var k := QuoteEnd(s, i);
    assert k <= q;
    assert k >= q;
  }

  /** MatchAt reads the match off the same positions that PatternFromPositions describes. */
  lemma MatchAtPositions(s: string, i: nat, j: nat, k: nat)
    requires i + |ObservationMarker| <= j < k && k + 2 <= |s|
    requires ObservationMarker <= s[i..]
    requires forall m :: i + |ObservationMarker| <= m < j ==> IsSpace(s[m])
    requires s[j] == '\'' && s[k] == '\'' && s[k + 1] == '}'
    requires forall m :: j < m < k ==> s[m] != '\''
    ensures MatchAt(s, i) == Some(s[j + 1..k])
  {
    SkipSpacesTo(s, i + |ObservationMarker|, j);
    QuoteEndAt(s, j + 1, k);
  }

  /** Where the pattern matches, MatchAt finds that match and its group. */
  lemma MatchAtComplete(s: string, i: nat, body: string)
    requires i <= |s|
    requires PatternAt(s, i, body)
    ensures MatchAt(s, i) == Some(body)
  {
    var n := |ObservationMarker|;
    var w :| AllSpace(w) && ObservationMarker + w + "'" + body + "'}" <= s[i..];
    PatternPieces(s, i, w, body);
    var p := i + n + |w|;
    var q := p + 1 + |body|;
    forall m | i + n <= m < p ensures IsSpace(s[m]) {
      assert s[m] == s[i + n..p][m - i - n];
    }
    forall m | p < m < q ensures s[m] != '\'' {
      assert s[m] == s[p + 1..q][m - p - 1];
    }
    MatchAtPositions(s, i, p, q);
  }

  /** MatchAt finds a match at `i` exactly when the pattern matches there. */
  lemma MatchAtIff(s: string, i: nat, body: string)
    requires i <= |s|
    ensures MatchAt(s, i) == Some(body) <==> PatternAt(s, i, body)
  {
    if MatchAt(s, i) == Some(body) { MatchAtSound(s, i, body); }
    if PatternAt(s, i, body) { MatchAtComplete(s, i, body); }
  }

  /** re.search: the match at the leftmost position where the pattern matches. */
  function SearchFrom(s: string, i: nat): Option<string>
    requires i <= |s|
    decreases |s| - i
  {
    match MatchAt(s, i)
    case Some(body) => Some(body)
    case None => if i == |s| then None else SearchFrom(s, i + 1)
  }

  function Search(s: string): Option<string> {
    SearchFrom(s, 0)
  }

  /** MatchAt rules out every group at a position where it finds nothing. */
  lemma MatchAtNone(s: string, i: nat)
    requires i <= |s| && MatchAt(s, i).None?
    ensures forall b :: !PatternAt(s, i, b)
  {
    forall b ensures !PatternAt(s, i, b) {
      MatchAtIff(s, i, b);
    }
  }

  /** Where SearchFrom finds nothing, the pattern matches at no later position. */
  lemma {:induction false} SearchFromNone(s: string, i: nat)
    requires i <= |s|
    ensures SearchFrom(s, i).None? ==> forall p, b :: i <= p ==> !PatternAt(s, p, b)
    decreases |s| - i
  {
    if SearchFrom(s, i).None? {
      assert MatchAt(s, i).None?;
      MatchAtNone(s, i);
      if i < |s| {
        SearchFromNone(s, i + 1);
      }
    }
  }

  lemma {:induction false} SearchFromLeftmost(s: string, i: nat)
    requires i <= |s|
    ensures SearchFrom(s, i).None? ==> forall p, b :: i <= p ==> !PatternAt(s, p, b)
    ensures SearchFrom(s, i).Some? ==>
      exists p :: i <= p && PatternAt(s, p, SearchFrom(s, i).value) &&
        forall p', b :: i <= p' < p ==> !PatternAt(s, p', b)
    decreases |s| - i
  {
    SearchFromNone(s, i);
    if SearchFrom(s, i).Some? {
      if MatchAt(s, i).Some? {
        MatchAtSound(s, i, MatchAt(s, i).value);
        assert PatternAt(s, i, SearchFrom(s, i).value);
      } else {
        MatchAtNone(s, i);
        SearchFromLeftmost(s, i + 1);
        var p :| i + 1 <= p && PatternAt(s, p, SearchFrom(s, i).value) &&
          forall p', b :: i + 1 <= p' < p ==> !PatternAt(s, p', b);
        assert forall p', b :: i <= p' < p ==> !PatternAt(s, p', b);
      }
    }
  }

  /**
   * Search returns the group of the leftmost match, and fails exactly when the
   * pattern matches nowhere in the line.
   */
  lemma SearchLeftmost(s: string)
    ensures Search(s).None? <==> forall p, b :: !PatternAt(s, p, b)
    ensures Search(s).Some? ==>
      exists p :: PatternAt(s, p, Search(s).value) && forall p', b :: 0 <= p' < p ==> !PatternAt(s, p', b)
  {
    SearchFromLeftmost(s, 0);
  }

  // ---------------------------------------------------------------------------
  // Unescaping observation bodies
  // ---------------------------------------------------------------------------

  /** `.replace('\\n', '\n')`: each backslash-n pair becomes a real line break. */
  function Unescape(s: string): string {
    Replace(s, Escape, "\n")
  }

  /** No backslash-n pair is left after unescaping. */
  lemma {:induction false} UnescapeLeavesNoEscape(s: string)
    ensures !Contains(Unescape(s), Escape)
  {
    var r := Unescape(s);
    if s == [] {
      assert forall i :: 0 <= i <= |r| ==> |r[i..]| < |Escape|;
    } else if Escape <= s {
      var u := Unescape(s[2..]);
      UnescapeLeavesNoEscape(s[2..]);
      assert r == "\n" + u;
      forall i | 0 <= i <= |r| ensures !(Escape <= r[i..]) {
        if i == 0 {
          assert r[0] == '\n';
        } else {
          assert r[i..] == u[i - 1..];
        }
      }
    } else {
      var u := Unescape(s[1..]);
      UnescapeLeavesNoEscape(s[1..]);
      assert r == [s[0]] + u;
      forall i | 0 <= i <= |r| ensures !(Escape <= r[i..]) {
        if i == 0 {
          if s[0] == '\\' && u != [] {
            assert s[1..] != [];
            assert s[1] != 'n' by { assert s[..2] != Escape; }
            assert u[0] != 'n' by {
              if Escape <= s[1..] { assert u[0] == '\n'; } else { assert u[0] == s[1..][0]; }
            }
          }
        } else {
          assert r[i..] == u[i - 1..];
        }
      }
    }
  }

  // ---------------------------------------------------------------------------
  // Line classification and the filter
  // ---------------------------------------------------------------------------

  /** What one output line contributes to the answer. */
  datatype Classified =
    | Saved(text: string)        // a save confirmation, kept as it stands
    | Observation(text: string)  // the unescaped, trimmed body of an observation record
    | Unparsed(text: string)     // the observation marker is present but the pattern does not match
    | Unrecognized               // dropped

  /** The line, right-trimmed, carries one of the two markers. */
  predicate Marked(line: string) {
    Contains(RStrip(line), SavedMarker) || Contains(RStrip(line), ObservationMarker)
  }

  /** One pass of the loop body (lines 63-76): the save marker is tested first. */
  function Classify(line: string): Classified {
    var cleaned := RStrip(line);
    if Contains(cleaned, SavedMarker) then Saved(cleaned)
    else if Contains(cleaned, ObservationMarker) then
      match Search(cleaned)
      case Some(body) => Observation(Unescape(Strip(body)))
      case None => Unparsed(cleaned)
    else Unrecognized
  }

  /**
   * A line is kept exactly when it is marked; a save confirmation wins over an
   * observation record on the same line; an observation is the unescaped,
   * trimmed group of the leftmost match, and a marked line with no match is
   * kept right-trimmed.
   */
  lemma ClassifySpec(line: string)
    ensures Classify(line).Unrecognized? <==> !Marked(line)
    ensures Classify(line).Saved? <==> Contains(RStrip(line), SavedMarker)
    ensures Classify(line).Saved? ==> Classify(line).text == RStrip(line)
    ensures Classify(line).Unparsed? ==>
      Classify(line).text == RStrip(line) && forall p, b :: !PatternAt(RStrip(line), p, b)
    ensures Classify(line).Observation? ==>
      exists p, body :: PatternAt(RStrip(line), p, body) && Classify(line).text == Unescape(Strip(body)) &&
        forall p', b :: 0 <= p' < p ==> !PatternAt(RStrip(line), p', b)
  {
    SearchLeftmost(RStrip(line));
  }

  /** What a classified line adds to `output_lines`. */
  function Kept(c: Classified): seq<string> {
    if c.Unrecognized? then [] else [c.text]
  }

  /** The list `output_lines` after the loop over `lines`. */
  function Survivors(lines: seq<string>): seq<string> {
    if lines == [] then [] else Kept(Classify(lines[0])) + Survivors(lines[1..])
  }

  /** Filtering distributes over concatenation, so survivors keep the input order. */
  lemma {:induction false} SurvivorsAppend(xs: seq<string>, ys: seq<string>)
    ensures Survivors(xs + ys) == Survivors(xs) + Survivors(ys)
  {
    if xs != [] {
      assert (xs + ys)[1..] == xs[1..] + ys;
      SurvivorsAppend(xs[1..], ys);
    } else {
      assert xs + ys == ys;
    }
  }

  /** The survivors of one more line are the old survivors and what that line keeps. */
  lemma SurvivorsSnoc(lines: seq<string>, n: nat)
    requires n < |lines|
    ensures Survivors(lines[..n + 1]) == Survivors(lines[..n]) + Kept(Classify(lines[n]))
  {
    var line := lines[n];
    assert lines[..n + 1] == lines[..n] + [line];
    SurvivorsAppend(lines[..n], [line]);
    assert Survivors([line]) == Kept(Classify(line)) + Survivors([]) by {
      assert [line][0] == line && [line][1..] == [];
    }
  }

  /** A line without a marker contributes nothing; a marked line contributes one entry. */
  lemma SurvivorsSingle(line: string)
    ensures Survivors([line]) == if Marked(line) then [Classify(line).text] else []
  {
    ClassifySpec(line);
    assert [line][1..] == [];
  }

  /** Nothing survives exactly when no line carries a marker. */
  lemma {:induction false} SurvivorsEmpty(lines: seq<string>)
    ensures Survivors(lines) == [] <==> forall l :: l in lines ==> !Marked(l)
  {
    if lines != [] {
      ClassifySpec(lines[0]);
      assert forall l :: l in lines[1..] ==> l in lines;
      assert forall l :: l in lines ==> l == lines[0] || l in lines[1..];
      SurvivorsEmpty(lines[1..]);
    }
  }

  /**
   * The answer extracted from a successful run (lines 59-79): stdout and
   * stderr are concatenated, stripped and split into lines, the survivors are
   * stripped and joined by "\n", and the result is right-trimmed.
   */
  function Extract(stdout: string, stderr: string): string {
    JoinOutput(Survivors(Lines(Strip(stdout + stderr))))
  }

  /**
   * Line 79: each kept line is stripped, they are joined by "\n" and the
   * result is right-trimmed, so the answer never ends in whitespace.
   */
  function JoinOutput(outputLines: seq<string>): (output: string)
    ensures output == [] || !IsSpace(output[|output| - 1])
  {
    RStrip(Join("\n", StripEach(outputLines)))
  }

  /** Output in which no line carries a marker extracts to the empty answer. */
  lemma ExtractWithoutMarkers(stdout: string, stderr: string)
    requires forall l :: l in Lines(Strip(stdout + stderr)) ==> !Marked(l)
    ensures Extract(stdout, stderr) == ""
  {
    SurvivorsEmpty(Lines(Strip(stdout + stderr)));
    assert StripEach([]) == [];
  }

  /**
   * The filter loop of call_openmanus (lines 59-79), appending to
   * `output_lines` one line at a time.
   */
  method FilterOutput(stdout: string, stderr: string) returns (output: string)
    ensures output == Extract(stdout, stderr)
  {
    var fullOutput := Strip(stdout + stderr);
    var lines := Lines(fullOutput);
    var outputLines: seq<string> := [];
    for n := 0 to |lines|
      invariant outputLines == Survivors(lines[..n])
    {
      var cleaned := RStrip(lines[n]);
      ghost var c := Classify(lines[n]);
      if Contains(cleaned, SavedMarker) {
        outputLines := outputLines + [cleaned];
        assert c == Saved(cleaned);
      } else if Contains(cleaned, ObservationMarker) {
        var m := Search(cleaned);
        if m.Some? {
          var obs := Unescape(Strip(m.value));
          outputLines := outputLines + [obs];
          assert c == Observation(obs);
        } else {
          outputLines := outputLines + [cleaned];
          assert c == Unparsed(cleaned);
        }
      } else {
        assert c == Unrecognized;
      }
      assert outputLines == Survivors(lines[..n]) + Kept(c);
      SurvivorsSnoc(lines, n);
    }
    assert lines[..|lines|] == lines;
    output := JoinOutput(outputLines);
  }
}
