/** The tracker settings panel: its textarea starts as the tracker list joined
    by line feeds, and saving turns the text back into a list by splitting on
    `\r?\n`, trimming every line and dropping the empty ones. */
module TrackersSettings {
  import opened Text

  /** The textarea's initial text, `trackers.join('\n')`. */
  function TextOf(trackers: seq<string>): string {
    Join(trackers, "\n")
  }

  /** Drops one trailing carriage return. */
  function StripCR(p: string): (r: string)
    ensures r + (if r == p then [] else ['\r']) == p
  {
    if p != [] && p[|p| - 1] == '\r' then p[..|p| - 1] else p
  }

  /** `value.split(/\r?\n/)`: split at every line feed, and a carriage return
      just before a line feed belongs to the separator. */
  function SplitLines(value: string): (lines: seq<string>)
    ensures |lines| == |Split(value, '\n')|
  {
    var pieces := Split(value, '\n');
    seq(|pieces|, k requires 0 <= k < |pieces| =>
      if k < |pieces| - 1 then StripCR(pieces[k]) else pieces[k])
  }

  /** No line contains a line feed. */
  lemma SplitLinesNoLf(value: string, k: nat)
    requires k < |SplitLines(value)|
    ensures '\n' !in SplitLines(value)[k]
  {
    var pieces := Split(value, '\n');
    SplitPieces(value, '\n');
    assert '\n' !in pieces[k];
    if k < |pieces| - 1 {
      var r := StripCR(pieces[k]);
      if r != pieces[k] {
        assert pieces[k] == r + ['\r'];
      }
    }
  }

  /** `.map(s => s.trim()).filter(Boolean)`. */
  function TrimNonEmpty(lines: seq<string>): (r: seq<string>)
    ensures |r| <= |lines|
    ensures forall i :: 0 <= i < |r| ==> r[i] != "" && IsTrimmed(r[i])
  {
    if lines == [] then []
    else
      var t := Trim(lines[|lines| - 1]);
      TrimNonEmpty(lines[..|lines| - 1]) + (if t == "" then [] else [t])
  }

  /** `handleSave`: the list passed to `onSave`. */
  function Parse(value: string): (r: seq<string>)
    ensures forall i :: 0 <= i < |r| ==> r[i] != "" && IsTrimmed(r[i])
  {
    TrimNonEmpty(SplitLines(value))
  }

  /** Lines keep their order: the entries of two blocks of lines are the entries of
      the first followed by those of the second. */
  lemma {:induction false} TrimNonEmptyAppend(a: seq<string>, b: seq<string>)
    ensures TrimNonEmpty(a + b) == TrimNonEmpty(a) + TrimNonEmpty(b)
    decreases |b|
  {
    if b == [] {
      assert a + b == a;
    } else {
      var b0 := b[..|b| - 1];
      assert (a + b)[..|a + b| - 1] == a + b0;
      TrimNonEmptyAppend(a, b0);
    }
  }

  /** A line contributes its trimmed text, or nothing when it is blank. */
  lemma TrimNonEmptyOne(line: string)
    ensures TrimNonEmpty([line]) == if Trim(line) == "" then [] else [Trim(line)]
  {
    assert [line][..0] == [];
  }

  predicate SomeLineTrimsTo(lines: seq<string>, u: string) {
    exists i :: 0 <= i < |lines| && Trim(lines[i]) == u
  }

  lemma SomeLineTrimsToSnoc(init: seq<string>, last: string, u: string)
    ensures SomeLineTrimsTo(init + [last], u) <==> SomeLineTrimsTo(init, u) || Trim(last) == u
  {
    var lines := init + [last];
    if SomeLineTrimsTo(init, u) {
      var i :| 0 <= i < |init| && Trim(init[i]) == u;
      assert lines[i] == init[i];
    }
    if Trim(last) == u {
      assert lines[|init|] == last;
    }
    if SomeLineTrimsTo(lines, u) {
      var i :| 0 <= i < |lines| && Trim(lines[i]) == u;
      if i < |init| {
        assert lines[i] == init[i];
      }
    }
  }

  /** An entry is saved exactly when some line trims to it and it is non-empty. */
  lemma {:induction false} TrimNonEmptyMembers(lines: seq<string>, u: string)
    ensures u in TrimNonEmpty(lines) <==> u != "" && SomeLineTrimsTo(lines, u)
  {
    if lines != [] {
      var init := lines[..|lines| - 1];
      var last := lines[|lines| - 1];
      assert lines == init + [last];
      TrimNonEmptyMembers(init, u);
      SomeLineTrimsToSnoc(init, last, u);
    }
  }

  /** Trimming removes a trailing carriage return anyway. */
  lemma TrimStripCR(p: string)
    ensures Trim(StripCR(p)) == Trim(p)
  {
    if p != [] && p[|p| - 1] == '\r' {
      assert p == p[..|p| - 1] + ['\r'];
      TrimDropsTrailingSpace(p[..|p| - 1], '\r');
    }
  }

  /** Line lists that agree after trimming save to the same entries. */
  lemma {:induction false} TrimNonEmptyCongruent(a: seq<string>, b: seq<string>)
    requires |a| == |b|
    requires forall i :: 0 <= i < |a| ==> Trim(a[i]) == Trim(b[i])
    ensures TrimNonEmpty(a) == TrimNonEmpty(b)
  {
    if a != [] {
      TrimNonEmptyCongruent(a[..|a| - 1], b[..|b| - 1]);
    }
  }

  /** The text of newline-free lines joined by line feeds saves to the entries of
      those lines. */
  lemma ParseLf(lines: seq<string>)
    requires forall i :: 0 <= i < |lines| ==> '\n' !in lines[i]
    ensures Parse(Join(lines, "\n")) == TrimNonEmpty(lines)
  {
    if lines == [] {
      ParseEmpty();
    } else {
      SplitJoin(lines, '\n');
      SplitLinesTrims(lines);
      TrimNonEmptyCongruent(SplitLines(Join(lines, "\n")), lines);
    }
  }

  lemma ParseEmpty()
    ensures Parse("") == []
  {
    assert Split("", '\n') == [""];
    assert SplitLines("") == [""];
    TrimNonEmptyOne("");
  }

  lemma SplitLinesTrims(lines: seq<string>)
    requires lines != []
    requires Split(Join(lines, "\n"), '\n') == lines
    ensures var sl := SplitLines(Join(lines, "\n"));
      |sl| == |lines| && forall i :: 0 <= i < |lines| ==> Trim(sl[i]) == Trim(lines[i])
  {
    var sl := SplitLines(Join(lines, "\n"));
    forall i | 0 <= i < |lines|
      ensures Trim(sl[i]) == Trim(lines[i])
    {
      SplitLinesAt(Join(lines, "\n"), lines, i);
    }
  }

  lemma SplitLinesAt(value: string, pieces: seq<string>, i: nat)
    requires Split(value, '\n') == pieces && i < |pieces|
    ensures Trim(SplitLines(value)[i]) == Trim(pieces[i])
  {
    var sl := SplitLines(value);
    if i < |pieces| - 1 {
      assert sl[i] == StripCR(pieces[i]);
      TrimStripCR(pieces[i]);
    } else {
      assert sl[i] == pieces[i];
    }
  }

  /** Appends a carriage return to every line but the last. */
  function WithCR(lines: seq<string>): (r: seq<string>)
    ensures |r| == |lines|
    ensures forall i :: 0 <= i < |lines| ==> r[i] == if i < |lines| - 1 then lines[i] + "\r" else lines[i]
  {
    if |lines| <= 1 then lines else [lines[0] + "\r"] + WithCR(lines[1..])
  }

  lemma {:induction false} JoinCrLf(lines: seq<string>)
    ensures Join(lines, "\r\n") == Join(WithCR(lines), "\n")
  {
    if |lines| > 1 {
      JoinCrLf(lines[1..]);
      assert WithCR(lines)[1..] == WithCR(lines[1..]);
    }
  }

  /** The text of newline-free lines joined by `\r\n` saves to the entries of those
      lines. */
  lemma ParseCrLf(lines: seq<string>)
    requires forall i :: 0 <= i < |lines| ==> '\n' !in lines[i]
    ensures Parse(Join(lines, "\r\n")) == TrimNonEmpty(lines)
  {
    JoinCrLf(lines);
    var w := WithCR(lines);
    forall i | 0 <= i < |w|
      ensures '\n' !in w[i]
    {
      WithCRNoLf(lines, i);
    }
    ParseLf(w);
    WithCRTrims(lines);
  }

  lemma WithCRNoLf(lines: seq<string>, i: nat)
    requires i < |lines| && '\n' !in lines[i]
    ensures '\n' !in WithCR(lines)[i]
  {
    if i < |lines| - 1 {
      assert WithCR(lines)[i] == lines[i] + ['\r'];
    }
  }

  lemma WithCRTrims(lines: seq<string>)
    ensures TrimNonEmpty(WithCR(lines)) == TrimNonEmpty(lines)
  {
    var w := WithCR(lines);
    forall i | 0 <= i < |w|
      ensures Trim(w[i]) == Trim(lines[i])
    {
      WithCRAt(lines, i);
    }
    TrimNonEmptyCongruent(w, lines);
  }

  lemma WithCRAt(lines: seq<string>, i: nat)
    requires i < |lines|
    ensures Trim(WithCR(lines)[i]) == Trim(lines[i])
  {
    if i < |lines| - 1 {
      assert WithCR(lines)[i] == lines[i] + ['\r'];
      TrimDropsTrailingSpace(lines[i], '\r');
    }
  }

  /** `\r\n` and `\n` line breaks give the same list. */
  lemma CrLfSameAsLf(lines: seq<string>)
    requires forall i :: 0 <= i < |lines| ==> '\n' !in lines[i]
    ensures Parse(Join(lines, "\r\n")) == Parse(Join(lines, "\n"))
  {
    ParseCrLf(lines);
    ParseLf(lines);
  }

  /** Saving the unedited textarea gives back the list it was initialised with,
      when every entry is trimmed, non-empty and newline-free. */
  lemma SaveUnedited(trackers: seq<string>)
    requires forall i :: 0 <= i < |trackers| ==>
      trackers[i] != "" && IsTrimmed(trackers[i]) && '\n' !in trackers[i]
    ensures Parse(TextOf(trackers)) == trackers
  {
    ParseLf(trackers);
    TrimNonEmptyOfClean(trackers);
  }

  lemma {:induction false} TrimNonEmptyOfClean(lines: seq<string>)
    requires forall i :: 0 <= i < |lines| ==> lines[i] != "" && IsTrimmed(lines[i])
    ensures TrimNonEmpty(lines) == lines
  {
    if lines != [] {
      var init := lines[..|lines| - 1];
      TrimNonEmptyOfClean(init);
      TrimOfTrimmed(lines[|lines| - 1]);
      assert init + [lines[|lines| - 1]] == lines;
    }
  }
}
