/**
 The per-format serialisers of src/utils/file_handler.py (`save_as_txt`,
 `save_as_srt`, `save_as_vtt`, `save_as_tsv`), each as a pure function
 from a transcription result to the text the source writes into its file.
 Times are integer microseconds.
 */
module Serializers {
  import opened Text
  import opened Timestamp

  /** One timed chunk of speech; `start` and `end` in microseconds. */
  datatype Segment = Segment(start: int, end: int, text: string)

  /**
   The transcription result the serialisers read: the full text and the
   segments in playback order. The detected language is only read by the
   JSON writer, which is not part of this model.
   */
  datatype Transcription = Transcription(text: string, segments: seq<Segment>)

  // ---------------------------------------------------------------------------
  // TXT

  /**
   `save_as_txt`: the full text with surrounding whitespace stripped. The
   result has no whitespace at either end, stripping it again changes
   nothing, and it is empty exactly when the text is all whitespace.
   */
  function RenderTxt(t: Transcription): (r: string)
    ensures Trimmed(r) && Strip(r) == r
    ensures r == [] <==> AllWhitespace(t.text)
    ensures |r| <= |t.text|
  {
    StripSpec(t.text);
    StripIdempotent(t.text);
    StripEmpty(t.text);
    Strip(t.text)
  }

  // ---------------------------------------------------------------------------
  // SRT and WebVTT

  /**
   The lines one segment contributes to an SRT or WebVTT file, given its
   two rendered timestamps: the time line, the stripped text, a blank line.
   */
  function Cue(start: string, end: string, text: string): string {
    start + " --> " + end + "\n" + Strip(text) + "\n\n"
  }

  /** One SRT block: the index line, then the cue with SRT timestamps. */
  function SrtBlock(index: nat, seg: Segment): string {
    Decimal(index) + "\n" + Cue(FormatTimestamp(seg.start, "srt"), FormatTimestamp(seg.end, "srt"), seg.text)
  }

  /** `save_as_srt`: the loop over `enumerate(segments, 1)` writes one block per segment. */
  function RenderSrt(segs: seq<Segment>): (r: string)
    ensures r == [] <==> segs == []
  {
    Numbered(SrtBlock, segs, 1)
  }

  /**
   The SRT file is exactly the concatenation, in input order, of one block
   per segment, numbered 1 to N.
   */
  lemma SrtDocument(segs: seq<Segment>)
    ensures var blocks := NumberedPieces(SrtBlock, segs, 1);
            && RenderSrt(segs) == Concat(blocks)
            && |blocks| == |segs|
            && forall i :: 0 <= i < |segs| ==> blocks[i] == SrtBlock(1 + i, segs[i])
  {
    NumberedParts(SrtBlock, segs, 1);
  }

  /**
   Appending segments appends blocks: the file for `a + b` is the file for
   `a` followed by the blocks of `b`, whose numbering continues at |a| + 1.
   */
  lemma SrtAppend(a: seq<Segment>, b: seq<Segment>)
    ensures RenderSrt(a + b) == RenderSrt(a) + Numbered(SrtBlock, b, |a| + 1)
  {
    NumberedAppend(SrtBlock, a, b, 1);
  }

  const VttHeader: string := "WEBVTT\n\n"

  /** One WebVTT cue: the cue with WebVTT timestamps and no index line. */
  function VttCue(seg: Segment): string {
    Cue(FormatTimestamp(seg.start, "vtt"), FormatTimestamp(seg.end, "vtt"), seg.text)
  }

  /**
   `save_as_vtt`: the file always starts with the `WEBVTT` header and a
   blank line, and is just that header when there are no segments.
   */
  function RenderVtt(segs: seq<Segment>): (r: string)
    ensures |r| >= |VttHeader| && r[..|VttHeader|] == VttHeader
    ensures r == VttHeader <==> segs == []
  {
    VttHeader + ConcatMap(VttCue, segs)
  }

  /** The WebVTT file is the header followed by one cue per segment, in order. */
  lemma VttDocument(segs: seq<Segment>)
    ensures var cues := Pieces(VttCue, segs);
            && RenderVtt(segs) == VttHeader + Concat(cues)
            && |cues| == |segs|
            && forall i :: 0 <= i < |segs| ==> cues[i] == VttCue(segs[i])
  {
    ConcatMapParts(VttCue, segs);
  }

  /**
   Changing the characters four from the end of both timestamps of a cue is
   changing them in the cue.
   */
  lemma CueUpdate(vs: string, ve: string, text: string, c: char)
    requires |vs| >= 4 && |ve| >= 4
    ensures var k1 := |vs| - 4;
            var k2 := |vs| + 5 + |ve| - 4;
            Cue(vs, ve, text)[k1 := c][k2 := c] == Cue(vs[|vs| - 4 := c], ve[|ve| - 4 := c], text)
  {
    var k1, k2 := |vs| - 4, |vs| + 5 + |ve| - 4;
    var ss, se := vs[k1 := c], ve[|ve| - 4 := c];
    var t := Strip(text);
    UpdateAppend(vs + " --> " + ve + "\n" + t, "\n\n", k1, c);
    UpdateAppend(vs + " --> " + ve + "\n", t, k1, c);
    UpdateAppend(vs + " --> " + ve, "\n", k1, c);
    UpdateAppend(vs + " --> ", ve, k1, c);
    UpdateAppend(vs, " --> ", k1, c);
    assert Cue(vs, ve, text)[k1 := c] == Cue(ss, ve, text);
    UpdateAppend(ss + " --> " + ve + "\n" + t, "\n\n", k2, c);
    UpdateAppend(ss + " --> " + ve + "\n", t, k2, c);
    UpdateAppend(ss + " --> " + ve, "\n", k2, c);
    UpdateAppend(ss + " --> ", ve, k2, c);
  }

  /**
   A cue whose timestamps carry `.` four from the end, with both turned
   into `,`, is the same cue with exactly those two characters changed.
   */
  lemma CueSeparators(vs: string, ve: string, ss: string, se: string, text: string)
    requires |vs| >= 4 && |ve| >= 4 && vs[|vs| - 4] == '.' && ve[|ve| - 4] == '.'
    requires ss == vs[|vs| - 4 := ','] && se == ve[|ve| - 4 := ',']
    ensures var v := Cue(vs, ve, text);
            var k1, k2 := |vs| - 4, |vs| + 5 + |ve| - 4;
            && 0 <= k1 < k2 < |v|
            && v[k1] == '.' && v[k2] == '.'
            && Cue(ss, se, text) == v[k1 := ','][k2 := ',']
  {
    CueUpdate(vs, ve, text, ',');
    var k2 := |vs| + 5 + |ve| - 4;
    assert Cue(vs, ve, text)[k2] == ve[|ve| - 4];
  }

  /** The SRT cue of a segment is its WebVTT cue with the two separators changed. */
  lemma SrtCueVsVttCue(seg: Segment)
    ensures var v := VttCue(seg);
            var k1 := |FormatTimestamp(seg.start, "vtt")| - 4;
            var k2 := |FormatTimestamp(seg.start, "vtt")| + 5 + |FormatTimestamp(seg.end, "vtt")| - 4;
            && 0 <= k1 < k2 < |v|
            && v[k1] == '.' && v[k2] == '.'
            && Cue(FormatTimestamp(seg.start, "srt"), FormatTimestamp(seg.end, "srt"), seg.text) == v[k1 := ','][k2 := ',']
  {
    var vs, ve := FormatTimestamp(seg.start, "vtt"), FormatTimestamp(seg.end, "vtt");
    VttToSrt(seg.start);
    VttToSrt(seg.end);
    CueSeparators(vs, ve, FormatTimestamp(seg.start, "srt"), FormatTimestamp(seg.end, "srt"), seg.text);
  }

  /**
   An SRT block is the index line followed by the WebVTT cue for the same
   segment with the `.` in front of each timestamp's milliseconds turned
   into `,`; nothing else differs.
   */
  lemma SrtBlockVsVttCue(index: nat, seg: Segment)
    ensures var v := VttCue(seg);
            var k1 := |FormatTimestamp(seg.start, "vtt")| - 4;
            var k2 := |FormatTimestamp(seg.start, "vtt")| + 5 + |FormatTimestamp(seg.end, "vtt")| - 4;
            && 0 <= k1 < k2 < |v|
            && v[k1] == '.' && v[k2] == '.'
            && SrtBlock(index, seg) == Decimal(index) + "\n" + v[k1 := ','][k2 := ',']
  {
    SrtCueVsVttCue(seg);
  }

  // ---------------------------------------------------------------------------
  // TSV

  const TsvHeader: string := "start\tend\ttext\n"

  /**
   Hundredths of a second in `|us|`, rounded to nearest with halves away
   from zero.
   */
  function Centis(us: int): nat {
    ((if us < 0 then -us else us) + 5_000) / 10_000
  }

  /**
   `f"{x:.2f}"` for a time of `us` microseconds: sign, whole seconds, point,
   two decimals.
   */
  function Fixed2(us: int): string {
    (if us < 0 then "-" else "") + Unsigned2(Centis(us))
  }

  /** `c` hundredths as whole units, a point and exactly two decimals. */
  function Unsigned2(c: nat): string {
    Decimal(c / 100) + "." + ZeroPad(c % 100, 2)
  }

  /** The text column: stripped, with every tab replaced by one space. */
  function TsvText(text: string): string {
    ReplaceChar(Strip(text), '\t', ' ')
  }

  /**
   The text column holds no tab: it is the stripped text, position by
   position, with each tab turned into a space.
   */
  lemma TsvTextSpec(text: string)
    ensures var r := TsvText(text);
            && '\t' !in r
            && |r| == |Strip(text)|
            && forall i :: 0 <= i < |r| ==> r[i] == (if Strip(text)[i] == '\t' then ' ' else Strip(text)[i])
  {
    ReplaceCharPointwise(Strip(text), '\t', ' ');
  }

  /** One data row: start, end and text column separated by tabs. */
  function TsvRow(seg: Segment): string {
    Fixed2(seg.start) + "\t" + Fixed2(seg.end) + "\t" + TsvText(seg.text) + "\n"
  }

  /** `save_as_tsv`: the header row, then one row per segment in order. */
  function RenderTsv(segs: seq<Segment>): (r: string)
    ensures |r| >= |TsvHeader| && r[..|TsvHeader|] == TsvHeader
    ensures r == TsvHeader <==> segs == []
  {
    TsvHeader + ConcatMap(TsvRow, segs)
  }

  /** The TSV file is the header followed by one row per segment, in order. */
  lemma TsvDocument(segs: seq<Segment>)
    ensures var rows := Pieces(TsvRow, segs);
            && RenderTsv(segs) == TsvHeader + Concat(rows)
            && |rows| == |segs|
            && forall i :: 0 <= i < |segs| ==> rows[i] == TsvRow(segs[i])
  {
    ConcatMapParts(TsvRow, segs);
  }

  /** Reads back unsigned `digits.dd` as a number of hundredths. */
  function ParseCentis(body: string): Option<int> {
    var n := |body|;
    if n < 4 || body[n - 3] != '.' || !AllDigits(body[..n - 3]) || !AllDigits(body[n - 2..]) then None
    else Some(DigitsValue(body[..n - 3]) * 100 + DigitsValue(body[n - 2..]))
  }

  /** Reads back a `.2f` rendering, with an optional minus sign, as signed hundredths. */
  function ParseFixed2(s: string): Option<int> {
    if |s| >= 1 && s[0] == '-' then
      match ParseCentis(s[1..])
      case Some(v) => Some(-v)
      case None => None
    else ParseCentis(s)
  }

  /** The unsigned rendering of `c` hundredths reads back as `c`. */
  lemma Unsigned2RoundTrip(c: nat)
    ensures ParseCentis(Unsigned2(c)) == Some(c)
    ensures Unsigned2(c)[0] != '-'
  {
    var w, f := Decimal(c / 100), ZeroPad(c % 100, 2);
    assert |f| == 2 by { ZeroPadExact(c % 100, 2); }
    assert AllDigits(w) && |w| >= 1 && DigitsValue(w) == c / 100 by { DecimalRoundTrip(c / 100); }
    assert AllDigits(f) && DigitsValue(f) == c % 100 by { ZeroPadRoundTrip(c % 100, 2); }
    CentisLayout(w, f);
  }

  /** Digits, a point and two digits read back as whole units and hundredths. */
  lemma CentisLayout(w: string, f: string)
    requires |w| >= 1 && AllDigits(w) && |f| == 2 && AllDigits(f)
    ensures ParseCentis(w + "." + f) == Some(DigitsValue(w) * 100 + DigitsValue(f))
    ensures (w + "." + f)[0] == w[0]
  {
    PointLayout(w, f);
    ParseCentisFields(w + "." + f);
  }

  /** Where the parts of `w.f` sit, for a two-character `f`. */
  lemma PointLayout(w: string, f: string)
    requires |f| == 2
    ensures var body, n := w + "." + f, |w| + 3;
            && |body| == n && body[..n - 3] == w && body[n - 3] == '.' && body[n - 2..] == f
  {
    var body, n := w + "." + f, |w| + 3;
    assert body[..n - 3] == w;
    assert body[n - 2..] == f;
  }

  /** What `ParseCentis` reads from a string laid out as digits, a point and two digits. */
  lemma ParseCentisFields(body: string)
    requires |body| >= 4 && body[|body| - 3] == '.'
    requires AllDigits(body[..|body| - 3]) && AllDigits(body[|body| - 2..])
    ensures ParseCentis(body) == Some(DigitsValue(body[..|body| - 3]) * 100 + DigitsValue(body[|body| - 2..]))
  {
  }

  /** A leading minus sign negates what the rest reads back as. */
  lemma SignLayout(neg: bool, body: string, v: int)
    requires |body| >= 1 && body[0] != '-' && ParseCentis(body) == Some(v)
    ensures ParseFixed2((if neg then "-" else "") + body) == Some(if neg then -v else v)
  {
    var s := (if neg then "-" else "") + body;
    if neg {
      assert s[1..] == body;
    } else {
      assert s == body;
    }
  }

  /** `Centis` is within half a hundredth of a second of the magnitude it rounds. */
  lemma CentisNearest(us: int)
    ensures var m := if us < 0 then -us else us;
            -5_000 < Centis(us) * 10_000 - m <= 5_000
  {
  }

  /**
   The two-decimal rendering reads back as the input rounded to the nearest
   hundredth of a second (within half a hundredth), keeping its sign.
   */
  lemma Fixed2RoundTrip(us: int)
    ensures ParseFixed2(Fixed2(us)) == Some(if us < 0 then 0 - Centis(us) else Centis(us))
    ensures var m := if us < 0 then -us else us;
            -5_000 < Centis(us) * 10_000 - m <= 5_000
  {
    CentisNearest(us);
    Unsigned2RoundTrip(Centis(us));
    SignLayout(us < 0, Unsigned2(Centis(us)), Centis(us));
  }

  /** The number columns hold neither a tab nor a line break. */
  lemma Fixed2Plain(us: int)
    ensures '\t' !in Fixed2(us) && '\n' !in Fixed2(us)
  {
    var c := Centis(us);
    var sign := if us < 0 then "-" else "";
    var w, f := Decimal(c / 100), ZeroPad(c % 100, 2);
    DecimalDigits(c / 100);
    ZeroPadDigits(c % 100, 2);
    assert Fixed2(us) == sign + (w + "." + f);
    assert forall ch :: ch in w ==> IsDigit(ch);
    assert forall ch :: ch in f ==> IsDigit(ch);
  }

  /** Occurrences of `c` in a row laid out as `a TAB b TAB t NEWLINE`. */
  lemma RowCount(a: string, b: string, t: string, c: char)
    ensures Count(a + "\t" + b + "\t" + t + "\n", c)
         == Count(a, c) + Count(b, c) + Count(t, c) + (if c == '\t' then 2 else 0) + (if c == '\n' then 1 else 0)
  {
    CountAppend(a, "\t", c);
    CountAppend(a + "\t", b, c);
    CountAppend(a + "\t" + b, "\t", c);
    CountAppend(a + "\t" + b + "\t", t, c);
    CountAppend(a + "\t" + b + "\t" + t, "\n", c);
    assert Count("\t", c) == (if c == '\t' then 1 else 0) by { assert "\t"[..0] == []; }
    assert Count("\n", c) == (if c == '\n' then 1 else 0) by { assert "\n"[..0] == []; }
  }

  /** Replacing tabs by spaces leaves the line breaks where they were. */
  lemma {:induction false} TsvTextNewlines(s: string)
    ensures Count(ReplaceChar(s, '\t', ' '), '\n') == Count(s, '\n')
  {
    if s != [] {
      var r := ReplaceChar(s, '\t', ' ');
      assert r[..|r| - 1] == ReplaceChar(s[..|s| - 1], '\t', ' ');
      TsvTextNewlines(s[..|s| - 1]);
    }
  }

  /**
   Each row has exactly two tab separators, and its line breaks are the
   closing one plus any the stripped text itself contains.
   */
  lemma TsvRowCounts(seg: Segment)
    ensures Count(TsvRow(seg), '\t') == 2
    ensures Count(TsvRow(seg), '\n') == Count(Strip(seg.text), '\n') + 1
  {
    var a, b, t := Fixed2(seg.start), Fixed2(seg.end), TsvText(seg.text);
    Fixed2Plain(seg.start);
    Fixed2Plain(seg.end);
    CountZero(a, '\t');
    CountZero(a, '\n');
    CountZero(b, '\t');
    CountZero(b, '\n');
    TsvTextSpec(seg.text);
    CountZero(t, '\t');
    TsvTextNewlines(Strip(seg.text));
    RowCount(a, b, t, '\t');
    RowCount(a, b, t, '\n');
  }

  /** No text in `segs` has a line break left after stripping. */
  predicate SingleLineTexts(segs: seq<Segment>) {
    forall i :: 0 <= i < |segs| ==> '\n' !in Strip(segs[i].text)
  }

  /** The header line holds two tabs and one line break. */
  lemma HeaderCounts()
    ensures Count(TsvHeader, '\t') == 2 && Count(TsvHeader, '\n') == 1
  {
    RowCount("start", "end", "text", '\t');
    RowCount("start", "end", "text", '\n');
    CountZero("start", '\t');
    CountZero("start", '\n');
    CountZero("end", '\t');
    CountZero("end", '\n');
    CountZero("text", '\t');
    CountZero("text", '\n');
    assert TsvHeader == "start" + "\t" + "end" + "\t" + "text" + "\n";
  }

  /**
   The TSV file holds 2(N + 1) tabs, two per line, and, when no stripped
   text contains a line break, exactly N + 1 lines: the header and one row
   per segment. A line break inside a text is written as is and splits its
   row.
   */
  lemma TsvCounts(segs: seq<Segment>)
    ensures Count(RenderTsv(segs), '\t') == 2 * (|segs| + 1)
    ensures SingleLineTexts(segs) ==> Count(RenderTsv(segs), '\n') == |segs| + 1
  {
    forall i | 0 <= i < |segs|
      ensures Count(TsvRow(segs[i]), '\t') == 2
      ensures '\n' !in Strip(segs[i].text) ==> Count(TsvRow(segs[i]), '\n') == 1
    {
      TsvRowCounts(segs[i]);
      CountZero(Strip(segs[i].text), '\n');
    }
    CountConcatMap(TsvRow, segs, '\t', 2);
    HeaderCounts();
    CountAppend(TsvHeader, ConcatMap(TsvRow, segs), '\t');
    if SingleLineTexts(segs) {
      CountConcatMap(TsvRow, segs, '\n', 1);
      CountAppend(TsvHeader, ConcatMap(TsvRow, segs), '\n');
    }
  }
}
