/** The concat manifest `input.txt`: reading its "file" lines (create_reel), writing it (the upload
    handler in main.py) and rewriting it with durations (make_timed_concat).
    A text file is given as its sequence of lines, each without its line break. */
module Manifest {
  import opened Wrappers
  import opened Text

  /** A line both readers keep once stripped. */
  predicate IsFileLine(line: string) {
    StartsWith(Strip(line), "file ")
  }

  /** The stripped "file " lines of a text, in order. */
  function FileLines(lines: seq<string>): (r: seq<string>)
    ensures |r| <= |lines|
    ensures forall k :: 0 <= k < |r| ==> StartsWith(r[k], "file ")
  {
    if lines == [] then []
    else if IsFileLine(lines[|lines| - 1]) then FileLines(lines[..|lines| - 1]) + [Strip(lines[|lines| - 1])]
    else FileLines(lines[..|lines| - 1])
  }

  /** The file lines of two texts one after the other are those of the first, then those of the second. */
  lemma {:induction false} FileLinesAppend(a: seq<string>, b: seq<string>)
    ensures FileLines(a + b) == FileLines(a) + FileLines(b)
    decreases |b|
  {
    if b == [] {
      assert a + b == a;
    } else {
      var b' := b[..|b| - 1];
      assert (a + b)[..|a + b| - 1] == a + b';
      FileLinesAppend(a, b');
    }
  }

  /** The name in one "file" line: what follows the first "file", stripped of whitespace,
      then of surrounding single quotes, then of surrounding double quotes. */
  function EntryName(line: string): string
    requires StartsWith(line, "file ")
  {
    assert line[0..4] == line[..5][0..4];
    assert OccursAt(line, "file", 0);
    StripWhere(StripWhere(Strip(AfterFirst(line, "file")), Exactly('\'')), Exactly('"'))
  }

  /** The manifest's names, one per "file" line, in order. */
  function ManifestNames(lines: seq<string>): (r: seq<string>)
    ensures |r| == |FileLines(lines)|
  {
    if lines == [] then []
    else if IsFileLine(lines[|lines| - 1]) then ManifestNames(lines[..|lines| - 1]) + [EntryName(Strip(lines[|lines| - 1]))]
    else ManifestNames(lines[..|lines| - 1])
  }

  /** The k-th name is the name in the k-th file line. */
  lemma {:induction false} ManifestNamesAt(lines: seq<string>, k: nat)
    requires k < |FileLines(lines)|
    ensures ManifestNames(lines)[k] == EntryName(FileLines(lines)[k])
    decreases |lines|
  {
    var init := lines[..|lines| - 1];
    if !(IsFileLine(lines[|lines| - 1]) && k == |FileLines(init)|) {
      ManifestNamesAt(init, k);
    }
  }

  /** Reading input.txt in create_reel: the names of its "file" lines, or an error when there are none. */
  method ReadManifest(lines: seq<string>) returns (r: Result<seq<string>, ReelError>)
    ensures r.Success? <==> FileLines(lines) != []
    ensures r.Success? ==> r.value == ManifestNames(lines)
    ensures r.Failure? ==> r.error == NoFilesInManifest
  {
    var files: seq<string> := [];
    for i := 0 to |lines|
      invariant files == ManifestNames(lines[..i])
    {
      assert lines[..i + 1][..i] == lines[..i];
      var line := Strip(lines[i]);
      if StartsWith(line, "file ") {
        files := files + [EntryName(line)];
      }
    }
    assert lines[..|lines|] == lines;
    if files == [] {
      r := Failure(NoFilesInManifest);
    } else {
      r := Success(files);
    }
  }

  /** The lines the upload handler writes for its saved file names. */
  function ManifestLines(names: seq<string>): (r: seq<string>)
    ensures |r| == |names|
  {
    seq(|names|, k requires 0 <= k < |names| => "file '" + names[k] + "'")
  }

  /** A name that neither begins nor ends with a quote character. */
  predicate Unquoted(n: string) {
    n == [] || !(n[0] in "'\"" || n[|n| - 1] in "'\"")
  }

  /** A name as the upload handler saves it: no line break, so its line is one line of the file, and
      no quote at either end. */
  predicate SavedName(n: string) {
    '\n' !in n && '\r' !in n && Unquoted(n)
  }

  /** Written for saved names, every line holds no line break: the file has exactly these lines. */
  lemma WrittenLinesAreSingleLines(names: seq<string>)
    requires forall k :: 0 <= k < |names| ==> SavedName(names[k])
    ensures forall k :: 0 <= k < |names| ==>
      '\n' !in ManifestLines(names)[k] && '\r' !in ManifestLines(names)[k]
  {
    forall k | 0 <= k < |names|
      ensures '\n' !in ManifestLines(names)[k] && '\r' !in ManifestLines(names)[k]
    {
      var line := ManifestLines(names)[k];
      assert line == "file '" + names[k] + "'";
      assert forall i :: 0 <= i < |line| ==> line[i] in "file '" || line[i] in names[k];
    }
  }

  /** A written line is a file line, and already stripped. */
  lemma WrittenLineIsFileLine(n: string)
    ensures Strip("file '" + n + "'") == "file '" + n + "'"
    ensures IsFileLine("file '" + n + "'")
  {
    var line := "file '" + n + "'";
    StripUnguarded(line, Whitespace);
    assert line[..5] == "file ";
  }

  /** A written line gives back the name it was written for. */
  lemma EntryNameOfWritten(n: string)
    requires Unquoted(n)
    ensures EntryName("file '" + n + "'") == n
  {
    var line := "file '" + n + "'";
    assert line[..5] == "file ";
    assert line[0..4] == "file";
    assert FindFrom(line, "file", 0) == Some(0);
    var quoted := "'" + n + "'";
    assert AfterFirst(line, "file") == " " + quoted + "";
    StripSurrounded(" ", quoted, "", Whitespace);
    if n == [] {
      StripAllDropped(quoted, Exactly('\''));
    } else {
      StripSurrounded("'", n, "'", Exactly('\''));
      StripUnguarded(n, Exactly('"'));
    }
  }

  /** Every line the upload handler writes is kept, as it is, by the readers. */
  lemma {:induction false} FileLinesOfWritten(names: seq<string>)
    requires forall k :: 0 <= k < |names| ==> SavedName(names[k])
    ensures FileLines(ManifestLines(names)) == ManifestLines(names)
  {
    if names != [] {
      var n := |names|;
      var init := names[..n - 1];
      var lines := ManifestLines(names);
      var last := "file '" + names[n - 1] + "'";
      assert lines == ManifestLines(init) + [last];
      assert FileLines(ManifestLines(init)) == ManifestLines(init) by {
        assert forall k :: 0 <= k < |init| ==> init[k] == names[k];
        FileLinesOfWritten(init);
      }
      assert FileLines([last]) == [last] by {
        WrittenLineIsFileLine(names[n - 1]);
        assert [last][..0] == [];
      }
      FileLinesAppend(ManifestLines(init), [last]);
    }
  }

  /** Reading back the manifest the upload handler wrote gives its names, in order. */
  lemma ManifestRoundTrip(names: seq<string>)
    requires forall k :: 0 <= k < |names| ==> SavedName(names[k])
    ensures ManifestNames(ManifestLines(names)) == names
  {
    var lines := ManifestLines(names);
    FileLinesOfWritten(names);
    forall k | 0 <= k < |names| ensures ManifestNames(lines)[k] == names[k] {
      ManifestNamesAt(lines, k);
      EntryNameOfWritten(names[k]);
    }
  }

  /** Each file line followed by a "duration" line. */
  function Interleave(fileLines: seq<string>, durationText: string): (r: seq<string>)
    ensures |r| == 2 * |fileLines|
    ensures forall k :: 0 <= k < |fileLines| ==> r[2 * k] == fileLines[k] && r[2 * k + 1] == "duration " + durationText
  {
    if fileLines == [] then []
    else Interleave(fileLines[..|fileLines| - 1], durationText) + [fileLines[|fileLines| - 1], "duration " + durationText]
  }

  /** make_timed_concat: the kept file lines, each followed by its duration, and the last file line
      once more so that its duration is applied; an error when there is no file line.
      `durationText` is the printed form of the per-item duration. */
  method MakeTimedConcat(lines: seq<string>, durationText: string) returns (r: Result<seq<string>, ReelError>)
    ensures r.Failure? <==> FileLines(lines) == []
    ensures r.Failure? ==> r.error == NoFileLines
    ensures r.Success? ==> r.value == Interleave(FileLines(lines), durationText) + [FileLines(lines)[|FileLines(lines)| - 1]]
    ensures r.Success? ==> |r.value| == 2 * |FileLines(lines)| + 1
  {
    var fileLines: seq<string> := [];
    for i := 0 to |lines|
      invariant fileLines == FileLines(lines[..i])
    {
      assert lines[..i + 1][..i] == lines[..i];
      var line := Strip(lines[i]);
      if StartsWith(line, "file ") {
        fileLines := fileLines + [line];
      }
    }
    assert lines[..|lines|] == lines;
    if fileLines == [] {
      return Failure(NoFileLines);
    }
    var out: seq<string> := [];
    for i := 0 to |fileLines|
      invariant out == Interleave(fileLines[..i], durationText)
    {
      assert fileLines[..i + 1][..i] == fileLines[..i];
      out := out + [fileLines[i]];
      out := out + ["duration " + durationText];
    }
    assert fileLines[..|fileLines|] == fileLines;
    out := out + [fileLines[|fileLines| - 1]];
    r := Success(out);
  }

  /** A "duration" line is never taken for a file line. */
  lemma DurationLineIsNoFileLine(durationText: string)
    ensures !IsFileLine("duration " + durationText)
  {
    var line := "duration " + durationText;
    assert DropFront(line, Whitespace) == line;
    DropBackKeepsFirst(line, Whitespace);
  }

  /** Read back, a timed concat list holds the same file lines, the last one twice. */
  lemma {:induction false} TimedConcatRereads(fileLines: seq<string>, durationText: string)
    requires forall k :: 0 <= k < |fileLines| ==> StartsWith(fileLines[k], "file ") && Strip(fileLines[k]) == fileLines[k]
    ensures FileLines(Interleave(fileLines, durationText)) == fileLines
  {
    if fileLines != [] {
      var init := fileLines[..|fileLines| - 1];
      var last := fileLines[|fileLines| - 1];
      TimedConcatRereads(init, durationText);
      FileLinesAppend(Interleave(init, durationText), [last, "duration " + durationText]);
      DurationLineIsNoFileLine(durationText);
      assert [last, "duration " + durationText][..1] == [last];
    }
  }

  /** Read back, make_timed_concat's output holds the same file lines, the last one twice. */
  lemma TimedConcatLines(lines: seq<string>, durationText: string)
    requires FileLines(lines) != []
    ensures var fl := FileLines(lines);
      FileLines(Interleave(fl, durationText) + [fl[|fl| - 1]]) == fl + [fl[|fl| - 1]]
  {
    var fl := FileLines(lines);
    var last := fl[|fl| - 1];
    forall k | 0 <= k < |fl| ensures Strip(fl[k]) == fl[k] {
      StripOfFileLine(lines, k);
    }
    TimedConcatRereads(fl, durationText);
    FileLinesAppend(Interleave(fl, durationText), [last]);
    assert [last][..0] == [];
  }

  /** Feeding make_timed_concat's output to the manifest reader gives the same names, the last one repeated. */
  lemma TimedConcatNames(lines: seq<string>, durationText: string)
    requires FileLines(lines) != []
    ensures var fl := FileLines(lines);
      ManifestNames(Interleave(fl, durationText) + [fl[|fl| - 1]]) == ManifestNames(lines) + [ManifestNames(lines)[|fl| - 1]]
  {
    var fl := FileLines(lines);
    var n := |fl|;
    var out := Interleave(fl, durationText) + [fl[n - 1]];
    TimedConcatLines(lines, durationText);
    var names := ManifestNames(lines);
    forall k | 0 <= k <= n ensures ManifestNames(out)[k] == (names + [names[n - 1]])[k] {
      ManifestNamesAt(out, k);
      ManifestNamesAt(lines, if k < n then k else n - 1);
    }
  }

  /** Every kept line is already stripped. */
  lemma {:induction false} StripOfFileLine(lines: seq<string>, k: nat)
    requires k < |FileLines(lines)|
    ensures Strip(FileLines(lines)[k]) == FileLines(lines)[k]
    decreases |lines|
  {
    var init := lines[..|lines| - 1];
    var last := lines[|lines| - 1];
    if IsFileLine(last) && k == |FileLines(lines)| - 1 {
      StripIdempotent(last, Whitespace);
    } else {
      StripOfFileLine(init, k);
    }
  }
}
