/** The incremental stderr splitter of `_run_qemu_img_with_live_progress` in
    h2kvm/converters/flatten.py, on decoded text. */
module StderrLines {

  predicate IsBreak(c: char)
  {
    c == '\r' || c == '\n'
  }

  predicate NoBreak(s: string)
  {
    forall i | 0 <= i < |s| :: !IsBreak(s[i])
  }

  // ----- re.split(r"[\r\n]+", s)

  function FirstBreak(s: string): (i: nat)
    ensures i <= |s| && NoBreak(s[..i]) && (i < |s| ==> IsBreak(s[i]))
  {
    if s == [] || IsBreak(s[0]) then 0
    else
      var i := FirstBreak(s[1..]);
      assert s[..i + 1] == [s[0]] + s[1..][..i];
      1 + i
  }

  function SkipBreaks(s: string): (r: string)
    ensures |r| <= |s|
    ensures s != [] && IsBreak(s[0]) ==> |r| < |s|
  {
    if s != [] && IsBreak(s[0]) then SkipBreaks(s[1..]) else s
  }

  /** The parts between maximal runs of breaks; the first and last may be empty. */
  function Parts(s: string): (r: seq<string>)
    ensures r != []
    decreases |s|
  {
    var i := FirstBreak(s);
    if i == |s| then [s] else [s[..i]] + Parts(SkipBreaks(s[i..]))
  }

  function NonEmpty(parts: seq<string>): seq<string>
  {
    if parts == [] then []
    else (if parts[0] != "" then [parts[0]] else []) + NonEmpty(parts[1..])
  }

  // ----- scanning character by character

  datatype Scanned = Scanned(lines: seq<string>, word: string)

  function Scan(s: string, from: Scanned): Scanned
    decreases |s|
  {
    if s == [] then from
    else if !IsBreak(s[0]) then Scan(s[1..], from.(word := from.word + [s[0]]))
    else Scan(s[1..], Flush(from))
  }

  /** End the current word, if there is one. */
  function Flush(st: Scanned): Scanned
  {
    if st.word == "" then st else Scanned(st.lines + [st.word], "")
  }

  const NOTHING := Scanned([], "")

  lemma {:induction false} ScanConcat(a: string, b: string, from: Scanned)
    ensures Scan(a + b, from) == Scan(b, Scan(a, from))
    decreases |a|
  {
    if a == [] {
      assert a + b == b;
    } else {
      assert (a + b)[1..] == a[1..] + b;
      ScanConcat(a[1..], b, if IsBreak(a[0]) then Flush(from) else from.(word := from.word + [a[0]]));
    }
  }

  lemma {:induction false} ScanWord(w: string, from: Scanned)
    requires NoBreak(w)
    ensures Scan(w, from) == from.(word := from.word + w)
    decreases |w|
  {
    if w == [] {
      assert from.word + w == from.word;
    } else {
      ScanWord(w[1..], from.(word := from.word + [w[0]]));
      assert from.word + [w[0]] + w[1..] == from.word + w;
    }
  }

  lemma {:induction false} ScanBreaks(s: string, from: Scanned)
    requires from.word == ""
    ensures Scan(s, from) == Scan(SkipBreaks(s), from)
    decreases |s|
  {
    if s != [] && IsBreak(s[0]) { ScanBreaks(s[1..], from); }
  }

  /** One step of splitting: everything up to and including the first run of breaks. */
  lemma ScanFirstPart(s: string, i: nat)
    requires i < |s| && NoBreak(s[..i]) && IsBreak(s[i])
    ensures Scan(s, NOTHING) == Scan(SkipBreaks(s[i..]), Flush(Scanned([], s[..i])))
  {
    var w, rest := s[..i], s[i..];
    assert s == w + rest;
    ScanConcat(w, rest, NOTHING);
    ScanWord(w, NOTHING);
    assert "" + w == w;
    ScanBreaks(rest[1..], Flush(Scanned([], w)));
  }

  /** What `_consume_text` makes of the parts: complete lines and a partial word, if the
      buffer does not end with a break. */
  function CutParts(parts: seq<string>, partial: bool): Scanned
    requires parts != []
  {
    if partial then Scanned(NonEmpty(parts[..|parts| - 1]), parts[|parts| - 1])
    else Scanned(NonEmpty(parts), "")
  }

  predicate EndsInWord(s: string)
  {
    s != [] && !IsBreak(s[|s| - 1])
  }

  function Cut(s: string): Scanned
  {
    CutParts(Parts(s), EndsInWord(s))
  }

  lemma CutPartsCons(w: string, parts: seq<string>, partial: bool)
    requires parts != []
    ensures CutParts([w] + parts, partial) ==
            Scanned((if w != "" then [w] else []) + CutParts(parts, partial).lines, CutParts(parts, partial).word)
  {
    assert ([w] + parts)[..|parts|] == [w] + parts[..|parts| - 1];
    NonEmptyCons(w, parts);
    NonEmptyCons(w, parts[..|parts| - 1]);
  }

  lemma {:induction false} SkipKeepsEnd(s: string)
    ensures SkipBreaks(s) != [] ==> s != [] && SkipBreaks(s)[|SkipBreaks(s)| - 1] == s[|s| - 1]
    ensures SkipBreaks(s) == [] && s != [] ==> IsBreak(s[|s| - 1])
  {
    if s != [] && IsBreak(s[0]) { SkipKeepsEnd(s[1..]); }
  }

  lemma SkipKeepsPartial(s: string, i: nat)
    requires i < |s| && IsBreak(s[i])
    ensures EndsInWord(SkipBreaks(s[i..])) <==> EndsInWord(s)
  {
    SkipKeepsEnd(s[i..]);
    assert s[i..][|s[i..]| - 1] == s[|s| - 1];
  }

  /** Splitting at runs of breaks and dropping empty parts equals scanning. */
  lemma {:induction false} CutIsScan(s: string)
    ensures Cut(s) == Scan(s, NOTHING)
    decreases |s|
  {
    var i := FirstBreak(s);
    if i == |s| {
      assert s[..i] == s;
      ScanWord(s, NOTHING);
      assert "" + s == s;
    } else {
      var w, rest := s[..i], SkipBreaks(s[i..]);
      assert Parts(s) == [w] + Parts(rest);
      SkipKeepsPartial(s, i);
      CutPartsCons(w, Parts(rest), EndsInWord(s));
      CutIsScan(rest);
      ScanFirstPart(s, i);
      assert [] + [w] == [w];
      ScanLines(rest, if w != "" then [w] else [], "");
    }
  }

  lemma NonEmptyCons(w: string, parts: seq<string>)
    ensures NonEmpty([w] + parts) == (if w != "" then [w] else []) + NonEmpty(parts)
  {
    assert ([w] + parts)[1..] == parts;
  }

  /** Lines already found stay in front. */
  lemma {:induction false} ScanLines(s: string, lines: seq<string>, word: string)
    ensures Scan(s, Scanned(lines, word)) ==
            Scanned(lines + Scan(s, Scanned([], word)).lines, Scan(s, Scanned([], word)).word)
    decreases |s|
  {
    if s == [] {
      assert lines + [] == lines;
    } else if !IsBreak(s[0]) {
      ScanLines(s[1..], lines, word + [s[0]]);
    } else if word == "" {
      ScanLines(s[1..], lines, word);
    } else {
      ScanLines(s[1..], lines + [word], "");
      ScanLines(s[1..], [word], "");
      assert [] + [word] == [word];
      assert lines + [word] + Scan(s[1..], NOTHING).lines == lines + ([word] + Scan(s[1..], NOTHING).lines);
    }
  }

  // ----- the maximal runs of the whole text

  /** s[i..j] is a maximal non-empty stretch without breaks. */
  predicate IsRun(s: string, i: int, j: int)
  {
    && 0 <= i < j <= |s|
    && (forall k | i <= k < j :: s[k] != '\r' && s[k] != '\n')
    && (i == 0 || s[i - 1] == '\r' || s[i - 1] == '\n')
    && (j == |s| || s[j] == '\r' || s[j] == '\n')
  }

  /** No run starts before i and reaches beyond it. */
  predicate Boundary(s: string, i: nat)
  {
    i == 0 || i >= |s| || IsBreak(s[i]) || IsBreak(s[i - 1])
  }

  datatype Span = Span(from: nat, to: nat)

  function RunEnd(s: string, i: nat): (j: nat)
    requires i < |s| && !IsBreak(s[i])
    ensures i < j <= |s| && (forall k | i <= k < j :: !IsBreak(s[k])) && (j == |s| || IsBreak(s[j]))
    decreases |s| - i
  {
    if i + 1 == |s| || IsBreak(s[i + 1]) then i + 1 else RunEnd(s, i + 1)
  }

  function Spans(s: string, i: nat): seq<Span>
    requires i <= |s|
    decreases |s| - i
  {
    if i == |s| then []
    else if IsBreak(s[i]) then Spans(s, i + 1)
    else [Span(i, RunEnd(s, i))] + Spans(s, RunEnd(s, i))
  }

  lemma {:induction false} SpansAreRuns(s: string, i: nat)
    requires i <= |s| && Boundary(s, i)
    ensures forall x | x in Spans(s, i) :: i <= x.from && IsRun(s, x.from, x.to)
    decreases |s| - i
  {
    if i < |s| { SpansAreRuns(s, if IsBreak(s[i]) then i + 1 else RunEnd(s, i)); }
  }

  lemma {:induction false} EveryRunIsListed(s: string, i: nat, from: nat, to: nat)
    requires i <= from && IsRun(s, from, to) && Boundary(s, i)
    ensures Span(from, to) in Spans(s, i)
    decreases |s| - i
  {
    if IsBreak(s[i]) {
      EveryRunIsListed(s, i + 1, from, to);
    } else if RunEnd(s, i) <= from {
      EveryRunIsListed(s, RunEnd(s, i), from, to);
    } else {
      assert from == i;
      assert to == RunEnd(s, i);
    }
  }

  lemma {:induction false} SpansAreOrdered(s: string, i: nat)
    requires i <= |s| && Boundary(s, i)
    ensures forall k, l | 0 <= k < l < |Spans(s, i)| :: Spans(s, i)[k].to <= Spans(s, i)[l].from
    decreases |s| - i
  {
    if i < |s| {
      if IsBreak(s[i]) {
        SpansAreOrdered(s, i + 1);
      } else {
        var j := RunEnd(s, i);
        SpansAreOrdered(s, j);
        SpansAreRuns(s, j);
      }
    }
  }

  /** Spans lists exactly the maximal runs of the text, each once, in order. */
  lemma SpansAreTheRuns(s: string)
    ensures forall x :: x in Spans(s, 0) <==> IsRun(s, x.from, x.to)
    ensures forall k, l | 0 <= k < l < |Spans(s, 0)| :: Spans(s, 0)[k].to <= Spans(s, 0)[l].from
  {
    SpansAreRuns(s, 0);
    SpansAreOrdered(s, 0);
    forall x: Span | IsRun(s, x.from, x.to) ensures x in Spans(s, 0) {
      EveryRunIsListed(s, 0, x.from, x.to);
    }
  }

  function Texts(s: string, spans: seq<Span>): seq<string>
    requires forall x | x in spans :: x.from <= x.to <= |s|
  {
    if spans == [] then []
    else
      assert spans[0] in spans;
      [s[spans[0].from..spans[0].to]] + Texts(s, spans[1..])
  }

  /** The lines of a text: its maximal runs free of CR and LF, in order. */
  ghost function Lines(s: string): seq<string>
  {
    SpansAreRuns(s, 0);
    Texts(s, Spans(s, 0))
  }

  lemma ScanRun(s: string, i: nat, j: nat)
    requires i < j <= |s| && forall k | i <= k < j :: !IsBreak(s[k])
    ensures Scan(s[i..], NOTHING) == Scan(s[j..], Scanned([], s[i..j]))
  {
    var w := s[i..j];
    assert s[i..] == w + s[j..];
    ScanConcat(w, s[j..], NOTHING);
    ScanWord(w, NOTHING);
    assert "" + w == w;
  }

  lemma FlushAfter(t: string, w: string)
    requires w != "" && (t == [] || IsBreak(t[0]))
    ensures Flush(Scan(t, Scanned([], w))).lines == [w] + Flush(Scan(t, NOTHING)).lines
  {
    assert [] + [w] == [w];
    if t != [] { ScanLines(t[1..], [w], ""); }
  }

  lemma SpansAreWithin(s: string, i: nat)
    requires i <= |s| && Boundary(s, i)
    ensures forall x | x in Spans(s, i) :: x.from <= x.to <= |s|
  {
    SpansAreRuns(s, i);
  }

  lemma ScanSkipsBreak(s: string, i: nat)
    requires i < |s| && IsBreak(s[i])
    ensures Scan(s[i..], NOTHING) == Scan(s[i + 1..], NOTHING)
  {
    assert s[i..][1..] == s[i + 1..];
  }

  lemma {:induction false} ScanFindsRuns(s: string, i: nat)
    requires i <= |s| && Boundary(s, i)
    ensures forall x | x in Spans(s, i) :: x.from <= x.to <= |s|
    ensures Flush(Scan(s[i..], NOTHING)).lines == Texts(s, Spans(s, i))
    decreases |s| - i
  {
    hide IsRun;
    SpansAreWithin(s, i);
    if i < |s| {
      hide Flush;
      if IsBreak(s[i]) {
        ScanFindsRuns(s, i + 1);
        ScanSkipsBreak(s, i);
      } else {
        var j := RunEnd(s, i);
        hide Scan;
        ScanRun(s, i, j);
        FlushAfter(s[j..], s[i..j]);
        ScanFindsRuns(s, j);
        assert Spans(s, i)[1..] == Spans(s, j);
      }
    }
  }

  // ----- the reader

  function Concat(chunks: seq<string>): string
  {
    if chunks == [] then "" else Concat(chunks[..|chunks| - 1]) + chunks[|chunks| - 1]
  }

  class StderrReader {
    var lineBuf: string
    var stderrLines: seq<string>

    /** The text consumed so far has these complete lines and this partial word. */
    ghost predicate Holds(text: string)
      reads this
    {
      Scan(text, NOTHING) == Scanned(stderrLines, lineBuf) && NoBreak(lineBuf)
    }

    constructor ()
      ensures Holds("")
    {
      lineBuf := "";
      stderrLines := [];
    }

    /** Feeding a line appends it to `stderr_lines`. */
    method FeedLines(parts: seq<string>)
      modifies this`stderrLines
      ensures stderrLines == old(stderrLines) + NonEmpty(parts)
    {
      for i := 0 to |parts|
        invariant old(stderrLines) + NonEmpty(parts) == stderrLines + NonEmpty(parts[i..])
      {
        assert parts[i..][0] == parts[i] && parts[i..][1..] == parts[i + 1..];
        if parts[i] != "" {
          stderrLines := stderrLines + [parts[i]];
        }
      }
      assert parts[|parts|..] == [];
    }

    /** `_consume_text` */
    method ConsumeText(text: string, ghost before: string)
      requires Holds(before)
      modifies this
      ensures Holds(before + text)
    {
      hide Scan, Parts, NonEmpty;
      if text == "" {
        assert before + text == before;
        return;
      }
      Resume(before, text, stderrLines, lineBuf);
      lineBuf := lineBuf + text;
      var parts := Parts(lineBuf);
      if EndsInWord(lineBuf) {
        lineBuf := parts[|parts| - 1];
        parts := parts[..|parts| - 1];
      } else {
        lineBuf := "";
      }
      FeedLines(parts);
    }

    /** The flush at the end of `drain_after_exit`. */
    method Drain(tail: string, ghost before: string)
      requires Holds(before)
      modifies this
      ensures stderrLines == Lines(before + tail)
    {
      ConsumeText(tail, before);
      if lineBuf != "" {
        stderrLines := stderrLines + [lineBuf];
      }
      ScanFindsRuns(before + tail, 0);
      assert (before + tail)[0..] == before + tail;
    }
  }

  /** Cutting the buffered word together with the new text continues the scan. */
  lemma Resume(before: string, text: string, fed: seq<string>, buf: string)
    requires Scan(before, NOTHING) == Scanned(fed, buf) && NoBreak(buf)
    ensures var c := Cut(buf + text);
            Scan(before + text, NOTHING) == Scanned(fed + c.lines, c.word) && NoBreak(c.word)
  {
    ScanConcat(before, text, NOTHING);
    ScanLines(text, fed, buf);
    CutIsScan(buf + text);
    ScanConcat(buf, text, NOTHING);
    ScanWord(buf, NOTHING);
    assert "" + buf == buf;
    ScanWordHasNoBreak(buf + text, NOTHING);
  }

  lemma {:induction false} ScanWordHasNoBreak(s: string, from: Scanned)
    requires NoBreak(from.word)
    ensures NoBreak(Scan(s, from).word)
    decreases |s|
  {
    if s != [] {
      ScanWordHasNoBreak(s[1..], if IsBreak(s[0]) then Flush(from) else from.(word := from.word + [s[0]]));
    }
  }

  /** For every way of cutting the text into chunks the reader collects exactly the lines
      of the whole text, even when a CR LF pair straddles a boundary. */
  method ReadAll(chunks: seq<string>, tail: string) returns (lines: seq<string>)
    ensures lines == Lines(Concat(chunks) + tail)
  {
    var reader := new StderrReader();
    for i := 0 to |chunks|
      invariant reader.Holds(Concat(chunks[..i]))
    {
      assert chunks[..i + 1][..i] == chunks[..i];
      reader.ConsumeText(chunks[i], Concat(chunks[..i]));
    }
    assert chunks[..|chunks|] == chunks;
    reader.Drain(tail, Concat(chunks));
    lines := reader.stderrLines;
  }
}
