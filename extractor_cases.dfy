/**
 * Worked cases of the output filter: a lone observation record, unmarked
 * lines around it, and the second pass that shows the filter is not
 * idempotent.
 */
module ExtractorCases {
  import opened Wrappers
  import opened Text
  import opened OutputExtractor

  /** A line that is exactly one observation record extracts to its body. */
  lemma ObservationLineMatches(w: string, body: string)
    requires AllSpace(w) && '\'' !in body
    ensures Search(ObservationMarker + w + "'" + body + "'}") == Some(body)
  {
    var line := ObservationMarker + w + "'" + body + "'}";
    assert line[0..] == line;
    MatchAtComplete(line, 0, body);
  }

  /** A record line whose body needs no trimming or unescaping classifies to that body. */
  lemma ClassifyRecord(w: string, body: string)
    requires AllSpace(w) && '\'' !in body && Trimmed(body) && !Contains(body, Escape)
    requires !Contains(Record(w, body), SavedMarker)
    ensures Classify(Record(w, body)) == Observation(body)
  {
    var line := Record(w, body);
    ObservationLineMatches(w, body);
    assert RStrip(line) == line;
    assert Contains(line, ObservationMarker) by { assert line[0..] == line; }
    StripTrimmed(body);
    ReplaceAbsent(body, Escape, "\n");
  }

  /** The line holding an observation record `{'observation':<w>'<body>'}`. */
  function Record(w: string, body: string): string {
    ObservationMarker + w + "'" + body + "'}"
  }

  /** A joined text is at least as long as each of its parts. */
  lemma {:induction false} JoinLength(sep: string, parts: seq<string>, k: nat)
    requires k < |parts|
    ensures |Join(sep, parts)| >= |parts[k]|
  {
    if k > 0 {
      JoinLength(sep, parts[1..], k - 1);
    }
  }

  /**
   * A trimmed, non-empty text made of break-free lines splits back into those
   * lines. The `+ ""` is the stream concatenation of `Extract(raw, "")` with
   * an empty stderr, so this states the lines that extraction splits.
   */
  lemma LinesOfJoin(lines: seq<string>)
    requires forall l :: l in lines ==> '\n' !in l
    requires Join("\n", lines) != [] && Trimmed(Join("\n", lines))
    ensures Lines(Strip(Join("\n", lines) + "")) == lines
  {
    var raw := Join("\n", lines);
    assert lines != [];
    assert raw + "" == raw;
    StripTrimmed(raw);
    SplitJoin(lines, '\n');
  }

  /** Only the record survives among unmarked lines. */
  lemma RecordSurvivors(before: seq<string>, w: string, body: string, after: seq<string>)
    requires AllSpace(w) && '\'' !in body && Trimmed(body) && !Contains(body, Escape)
    requires !Contains(Record(w, body), SavedMarker)
    requires forall l :: l in before ==> !Marked(l)
    requires forall l :: l in after ==> !Marked(l)
    ensures Survivors(before + [Record(w, body)] + after) == [body]
  {
    var rec := Record(w, body);
    ClassifyRecord(w, body);
    SurvivorsEmpty(before);
    SurvivorsEmpty(after);
    SurvivorsAppend(before + [rec], after);
    SurvivorsAppend(before, [rec]);
    assert [rec][1..] == [];
  }

  /**
   * Unmarked lines before and after a single observation record are dropped,
   * and the answer is the record's body.
   */
  lemma ExtractKeepsOnlyRecord(before: seq<string>, w: string, body: string, after: seq<string>)
    requires AllSpace(w) && '\'' !in body && Trimmed(body) && !Contains(body, Escape)
    requires !Contains(Record(w, body), SavedMarker)
    requires '\n' !in w && '\n' !in body
    requires forall l :: l in before ==> '\n' !in l && !Marked(l)
    requires forall l :: l in after ==> '\n' !in l && !Marked(l)
    requires Trimmed(Join("\n", before + [Record(w, body)] + after))
    ensures Extract(Join("\n", before + [Record(w, body)] + after), "") == body
  {
    var rec := Record(w, body);
    var lines := before + [rec] + after;
    assert forall l :: l in lines ==> '\n' !in l by {
      assert '\n' !in rec by { assert '\n' !in ObservationMarker && '\n' !in "'}"; }
    }
    assert Join("\n", lines) != [] by {
      JoinLength("\n", lines, |before|);
      assert lines[|before|] == rec;
    }
    LinesOfJoin(lines);
    RecordSurvivors(before, w, body, after);
    ExtractSingleSurvivor(Join("\n", lines), lines, body);
  }

  /**
   * When exactly one trimmed line survives, the answer is that line. `raw + ""`
   * is the joined streams of `Extract(raw, "")`, with nothing on stderr.
   */
  lemma ExtractSingleSurvivor(raw: string, lines: seq<string>, body: string)
    requires Lines(Strip(raw + "")) == lines
    requires Survivors(lines) == [body]
    requires Trimmed(body)
    ensures Extract(raw, "") == body
  {
    JoinOneLine(body);
  }

  /** Joining a single trimmed line gives that line. */
  lemma JoinOneLine(body: string)
    requires Trimmed(body)
    ensures JoinOutput([body]) == body
  {
    assert StripEach([body]) == [body] by { StripTrimmed(body); }
  }

  /** A marker-free line extracts to nothing. */
  lemma ExtractUnmarkedLine(line: string)
    requires '\n' !in line && Trimmed(line) && !Marked(line)
    ensures Extract(line, "") == ""
  {
    assert Lines(Strip(line + "")) == (if line == [] then [] else [line]) by {
      assert line + "" == line;
      StripTrimmed(line);
      SplitNoSep(line, '\n');
    }
    ExtractWithoutMarkers(line, "");
  }

  /** A lone record line extracts to the record's body. */
  lemma ExtractLoneRecord(w: string, body: string)
    requires AllSpace(w) && '\'' !in body && Trimmed(body) && !Contains(body, Escape)
    requires !Contains(Record(w, body), SavedMarker)
    requires '\n' !in w && '\n' !in body
    ensures Extract(Record(w, body), "") == body
  {
    assert Join("\n", [] + [Record(w, body)] + []) == Record(w, body) by {
      assert [] + [Record(w, body)] + [] == [Record(w, body)];
    }
    ExtractKeepsOnlyRecord([], w, body, []);
  }

  /**
   * The filter is not idempotent: a line holding one observation record
   * extracts to the record's body, and a non-empty body without a marker
   * then extracts to nothing (for instance `{'observation': 'bar'}` gives
   * `bar`, and `bar` gives the empty answer).
   */
  lemma ExtractNotIdempotent(w: string, body: string)
    requires AllSpace(w) && '\'' !in body && Trimmed(body) && !Contains(body, Escape)
    requires !Contains(Record(w, body), SavedMarker)
    requires '\n' !in w && '\n' !in body
    requires body != [] && !Marked(body)
    ensures Extract(Record(w, body), "") == body
    ensures Extract(Extract(Record(w, body), ""), "") == ""
    ensures Extract(Extract(Record(w, body), ""), "") != Extract(Record(w, body), "")
  {
    ExtractLoneRecord(w, body);
    ExtractUnmarkedLine(body);
  }
}
