/** The line-by-line comparison `highlightDiff` of the iterations sidebar
    (app/components/iterations-sidebar.tsx). It walks the lines of the new
    content by index; a line past the end of the old content is reported as
    added, a line that differs from the old line at the same index is
    reported as removed-then-added, and equal lines are omitted. Old lines
    past the end of the new content are never looked at. */
module Diff {
  import opened Lines

  /** The sentinel returned when nothing was emitted. */
  const NoChanges: string := "[No changes]"

  /** The entries emitted for line index `i` of the new content: nothing
      when the old content has the same line there; otherwise the new line
      as added, preceded by the old line as removed when the old content
      reaches that index. */
  function EntriesAt(oldLines: seq<string>, newLines: seq<string>, i: nat): seq<string>
    requires i < |newLines|
  {
    if i >= |oldLines| then ["+ " + newLines[i]]
    else if newLines[i] != oldLines[i] then ["- " + oldLines[i], "+ " + newLines[i]]
    else []
  }

  /** A line index contributes nothing exactly when both contents have the
      same line there; otherwise its last entry adds the new line, and it
      removes the old line first exactly when the old content reaches that
      index. */
  lemma EntriesAtCases(oldLines: seq<string>, newLines: seq<string>, i: nat)
    requires i < |newLines|
    ensures var r := EntriesAt(oldLines, newLines, i);
            && (r == [] <==> i < |oldLines| && newLines[i] == oldLines[i])
            && (r != [] ==> r[|r| - 1] == "+ " + newLines[i])
            && (|r| == 2 <==> i < |oldLines| && newLines[i] != oldLines[i])
            && (|r| == 2 ==> r[0] == "- " + oldLines[i])
  {
  }

  /** The entries emitted for the first `n` lines of the new content, in
      line-index order. */
  function EntriesUpTo(oldLines: seq<string>, newLines: seq<string>, n: nat): seq<string>
    requires n <= |newLines|
  {
    if n == 0 then [] else EntriesUpTo(oldLines, newLines, n - 1) + EntriesAt(oldLines, newLines, n - 1)
  }

  /** All entries of a comparison. */
  function DiffEntries(oldLines: seq<string>, newLines: seq<string>): seq<string>
  {
    EntriesUpTo(oldLines, newLines, |newLines|)
  }

  /** Every entry is one line of the output: a marker and a space, then a
      line without a newline. */
  predicate EntryLines(entries: seq<string>)
  {
    forall k :: 0 <= k < |entries| ==>
      |entries[k]| >= 2 && entries[k][..2] in {"+ ", "- "} && NewLine !in entries[k]
  }

  /** Reference definition of `highlightDiff(oldContent, newContent)`: the
      sentinel when no entry is emitted, otherwise the entries joined by
      newlines. */
  function DiffText(oldContent: string, newContent: string): string
  {
    var entries := DiffEntries(Split(oldContent), Split(newContent));
    if |entries| == 0 then NoChanges else Join(entries, [NewLine])
  }

  /** Unless the output is the sentinel, its lines are exactly the emitted
      entries, each a "+ " or "- " marker followed by a line. */
  lemma DiffTextLines(oldContent: string, newContent: string)
    ensures var r := DiffText(oldContent, newContent);
            r == NoChanges || (Split(r) == DiffEntries(Split(oldContent), Split(newContent)) && EntryLines(Split(r)))
  {
    var oldLines, newLines := Split(oldContent), Split(newContent);
    var entries := DiffEntries(oldLines, newLines);
    if |entries| > 0 {
      EntriesAreLines(oldLines, newLines, |newLines|);
      SplitJoin(entries);
    }
  }

  /** `newLines` is an initial segment of `oldLines`. */
  predicate IsPrefix(newLines: seq<string>, oldLines: seq<string>)
  {
    |newLines| <= |oldLines| && newLines == oldLines[..|newLines|]
  }

  /** Every entry is a marker, a space and a line. */
  predicate Marked(entries: seq<string>)
  {
    forall k :: 0 <= k < |entries| ==> |entries[k]| >= 2 && entries[k][0] in {'+', '-'}
  }

  /** `highlightDiff` as the loop of the source: walk the new lines by index
      and collect entries, then join them or return the sentinel. The result
      is the sentinel exactly when the new lines are an initial segment of
      the old ones, and is never the empty string. */
  method HighlightDiff(oldContent: string, newContent: string) returns (r: string)
    ensures r == DiffText(oldContent, newContent)
    ensures r == NoChanges <==> IsPrefix(Split(newContent), Split(oldContent))
    ensures r != ""
  {
    var oldLines := Split(oldContent);
    var newLines := Split(newContent);
    var result: seq<string> := [];
    var i := 0;
    while i < |newLines|
      invariant i <= |newLines|
      invariant result == EntriesUpTo(oldLines, newLines, i)
    {
      var newLine := newLines[i];
      assert EntriesUpTo(oldLines, newLines, i + 1)
          == EntriesUpTo(oldLines, newLines, i) + EntriesAt(oldLines, newLines, i);
      if i >= |oldLines| {
        result := result + ["+ " + newLine];
      } else if newLine != oldLines[i] {
        result := result + ["- " + oldLines[i]] + ["+ " + newLine];
      }
      i := i + 1;
    }
    assert result == DiffEntries(oldLines, newLines);
    if |result| == 0 {
      r := NoChanges;
    } else {
      r := Join(result, [NewLine]);
    }
    NoChangesIff(oldContent, newContent);
    DiffTextNonEmpty(oldContent, newContent);
  }

  /** No entry is emitted for the first `n` lines exactly when they equal
      the old lines at the same indices. */
  lemma {:induction false} EntriesUpToEmpty(oldLines: seq<string>, newLines: seq<string>, n: nat)
    requires n <= |newLines|
    ensures |EntriesUpTo(oldLines, newLines, n)| == 0
        <==> n <= |oldLines| && newLines[..n] == oldLines[..n]
  {
    if n > 0 {
      EntriesUpToEmpty(oldLines, newLines, n - 1);
      if n <= |oldLines| && newLines[..n] == oldLines[..n] {
        assert newLines[..n - 1] == newLines[..n][..n - 1];
        assert oldLines[..n - 1] == oldLines[..n][..n - 1];
        assert newLines[n - 1] == newLines[..n][n - 1];
      }
      if |EntriesUpTo(oldLines, newLines, n)| == 0 {
        assert newLines[..n] == newLines[..n - 1] + [newLines[n - 1]];
        assert oldLines[..n] == oldLines[..n - 1] + [oldLines[n - 1]];
      }
    }
  }

  /** With newline-free lines, every entry is a single output line. */
  lemma {:induction false} EntriesAreLines(oldLines: seq<string>, newLines: seq<string>, n: nat)
    requires n <= |newLines|
    requires forall k :: 0 <= k < |oldLines| ==> NewLine !in oldLines[k]
    requires forall k :: 0 <= k < |newLines| ==> NewLine !in newLines[k]
    ensures EntryLines(EntriesUpTo(oldLines, newLines, n))
  {
    if n > 0 {
      EntriesAreLines(oldLines, newLines, n - 1);
      var at := EntriesAt(oldLines, newLines, n - 1);
      forall k | 0 <= k < |at|
        ensures |at[k]| >= 2 && at[k][..2] in {"+ ", "- "} && NewLine !in at[k]
      {
        var line := if k == |at| - 1 then newLines[n - 1] else oldLines[n - 1];
        var marker := if k == |at| - 1 then "+ " else "- ";
        assert at[k] == marker + line;
        assert (marker + line)[..2] == marker;
      }
    }
  }

  lemma {:induction false} EntriesMarked(oldLines: seq<string>, newLines: seq<string>, n: nat)
    requires n <= |newLines|
    ensures Marked(EntriesUpTo(oldLines, newLines, n))
  {
    if n > 0 {
      EntriesMarked(oldLines, newLines, n - 1);
    }
  }

  lemma {:induction false} JoinStartsWithFirst(parts: seq<string>, sep: string)
    requires |parts| >= 1 && |parts[0]| >= 1
    ensures |Join(parts, sep)| >= 1 && Join(parts, sep)[0] == parts[0][0]
  {
  }

  /** `highlightDiff` answers "[No changes]" exactly when every new line equals
      the old line at its index, that is when the new lines are an initial
      segment of the old lines; lines removed at the end go unreported. */
  lemma NoChangesIff(oldContent: string, newContent: string)
    ensures DiffText(oldContent, newContent) == NoChanges
        <==> IsPrefix(Split(newContent), Split(oldContent))
  {
    var oldLines, newLines := Split(oldContent), Split(newContent);
    var entries := DiffEntries(oldLines, newLines);
    EntriesUpToEmpty(oldLines, newLines, |newLines|);
    assert newLines[..|newLines|] == newLines;
    if |entries| > 0 {
      EntriesMarked(oldLines, newLines, |newLines|);
      JoinStartsWithFirst(entries, [NewLine]);
      assert NoChanges[0] == '[';
    }
  }

  /** The rendered comparison is never the empty string. */
  lemma DiffTextNonEmpty(oldContent: string, newContent: string)
    ensures DiffText(oldContent, newContent) != ""
  {
    var entries := DiffEntries(Split(oldContent), Split(newContent));
    if |entries| > 0 {
      EntriesMarked(Split(oldContent), Split(newContent), |Split(newContent)|);
      JoinStartsWithFirst(entries, [NewLine]);
    }
  }

  /** Equal contents compare as "[No changes]". */
  lemma SameContentNoChanges(content: string)
    ensures DiffText(content, content) == NoChanges
  {
    NoChangesIff(content, content);
  }

  /** Old lines at indices at or past the new line count never influence
      the entries. */
  lemma {:induction false} OldTailIgnored(oldLines: seq<string>, newLines: seq<string>, extra: seq<string>, n: nat)
    requires n <= |newLines| <= |oldLines|
    ensures EntriesUpTo(oldLines + extra, newLines, n) == EntriesUpTo(oldLines, newLines, n)
  {
    if n > 0 {
      OldTailIgnored(oldLines, newLines, extra, n - 1);
      assert (oldLines + extra)[n - 1] == oldLines[n - 1];
    }
  }

  /** Concretely: removing the last two lines is reported as no change. */
  lemma TailDeletionUnreported()
    ensures DiffText("a\nb\nc", "a") == NoChanges
  {
    var lines := ["a", "b", "c"];
    assert lines[1..] == ["b", "c"] && lines[1..][1..] == ["c"];
    assert Join(["c"], [NewLine]) == "c";
    assert Join(["b", "c"], [NewLine]) == "b\nc";
    assert Join(lines, [NewLine]) == "a\nb\nc";
    SplitJoin(lines);
    SplitNoNewLine("a");
    NoChangesIff("a\nb\nc", "a");
  }

  /** The output is a list of changed lines, not a patch: an entry pair does
      not say at which line index it applies, so two different edits of the
      same old content can render the same text, and applying the entries to
      the old content cannot tell them apart. */
  lemma ChangedLineIndexLost()
    ensures DiffText("p\np", "p\nq") == "- p\n+ q"
    ensures DiffText("p\np", "q\np") == "- p\n+ q"
    ensures Split("p\nq") != Split("q\np")
  {
    assert ["p", "p"][1..] == ["p"] && ["p", "q"][1..] == ["q"] && ["q", "p"][1..] == ["p"];
    assert Join(["p", "p"], [NewLine]) == "p\np";
    assert Join(["p", "q"], [NewLine]) == "p\nq";
    assert Join(["q", "p"], [NewLine]) == "q\np";
    SplitJoin(["p", "p"]);
    SplitJoin(["p", "q"]);
    SplitJoin(["q", "p"]);
    assert ["- p", "+ q"][1..] == ["+ q"];
    assert Join(["- p", "+ q"], [NewLine]) == "- p\n+ q";
    var pp := ["p", "p"];
    assert EntriesUpTo(pp, ["p", "q"], 1) == [];
    assert "- " + "p" == "- p" && "+ " + "q" == "+ q" && "q" != "p";
    assert EntriesAt(pp, ["p", "q"], 1) == ["- p", "+ q"];
    assert EntriesUpTo(pp, ["p", "q"], 2) == ["- p", "+ q"];
    assert EntriesUpTo(pp, ["q", "p"], 1) == ["- p", "+ q"];
    assert EntriesUpTo(pp, ["q", "p"], 2) == ["- p", "+ q"];
  }

  /** `"+ "` before every line. */
  function Added(lines: seq<string>): (entries: seq<string>)
    ensures |entries| == |lines|
    ensures forall k :: 0 <= k < |lines| ==> entries[k] == "+ " + lines[k]
  {
    if |lines| == 0 then [] else ["+ " + lines[0]] + Added(lines[1..])
  }

  lemma AddedSnoc(lines: seq<string>, line: string)
    ensures Added(lines + [line]) == Added(lines) + ["+ " + line]
  {
  }

  /** When the old lines are an initial segment of the new lines, exactly
      one "+ " entry is emitted per appended line, in order, and nothing
      else. */
  lemma {:induction false} AppendedLinesOnly(oldLines: seq<string>, newLines: seq<string>, n: nat)
    requires |oldLines| <= n <= |newLines|
    requires oldLines == newLines[..|oldLines|]
    ensures EntriesUpTo(oldLines, newLines, n) == Added(newLines[|oldLines|..n])
  {
    if n == |oldLines| {
      assert newLines[..n] == oldLines[..n];
      EntriesUpToEmpty(oldLines, newLines, n);
      assert Added(newLines[|oldLines|..n]) == [];
    } else {
      AppendedLinesOnly(oldLines, newLines, n - 1);
      AppendedStep(oldLines, newLines, n);
    }
  }

  /** One line past the end of the old content adds one "+ " entry. */
  lemma AppendedStep(oldLines: seq<string>, newLines: seq<string>, n: nat)
    requires |oldLines| < n <= |newLines|
    requires EntriesUpTo(oldLines, newLines, n - 1) == Added(newLines[|oldLines|..n - 1])
    ensures EntriesUpTo(oldLines, newLines, n) == Added(newLines[|oldLines|..n])
  {
    var earlier := newLines[|oldLines|..n - 1];
    var added := "+ " + newLines[n - 1];
    assert EntriesAt(oldLines, newLines, n - 1) == [added];
    assert EntriesUpTo(oldLines, newLines, n) == Added(earlier) + [added];
    assert newLines[|oldLines|..n] == earlier + [newLines[n - 1]];
    AddedSnoc(earlier, newLines[n - 1]);
  }
}
