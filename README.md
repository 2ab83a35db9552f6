# Reel timeline allocation, in Dafny

This project models the planning half of `create_reel` in `generate_process.py`, the background
job that turns an ordered set of uploads into a vertical reel as long as its voice track. Given
the audio length A and the concat manifest `input.txt`, it covers these steps:

- the guard that rejects audio whose length A is 0 or less (`A <= 0`);
- reading the manifest's `file '<name>'` lines, and the guard when there are none;
- classifying each name by its lower-cased extension as gif, still or video;
- probing every gif and video with ffprobe into `dur_map`;
- the two-pass allocator. Pass 1 gives gifs and videos their probed time, trimmed to the budget
  left, and stops once the budget is spent. The stills share what is left, at least one second
  each. Pass 2 walks the timeline with a running time `t`. It gives each still `per_still`, capped
  at the time left, `A - t`. Every item it reaches once `t` has reached A gets 0, gifs and videos
  included. Items left with no time are dropped.
- the "no clips were generated" guard.

Next to `create_reel` it models `make_timed_concat`, which rewrites a manifest with a `duration`
line after each entry, and `get_media_duration`, the normalisation of ffprobe's output. It also
models the manifest writer in `main.py`, so that a written manifest can be shown to read back as
the same names.

Modules, one per file:

- `Wrappers`: `Option`, `Result` and the error conditions the job raises.
- `Text`: Python's `strip`, `startswith`, `split(sep, 1)`, `rfind` and `lower` on `seq<char>`.
- `Reals`: Python's `min` and `max`.
- `Kinds`: `os.path.splitext` and the classification loop.
- `Manifest`: reading and writing `input.txt`, and `make_timed_concat`.
- `Probe`: `get_media_duration` and the `dur_map` loop.
- `Timeline`: the allocator, as functions on values and as the methods `FirstPass`, `SecondPass`
  and `Allocate`. `SecondPass` updates an array in place, as the source's Pass 2 updates its dicts.
- `Reel`: `create_reel` from the audio length up to the list of items to render.

These are parameters rather than computations:

- A, the result of `get_audio_duration`;
- each ffprobe run, the function `probe` from a name to its exit code, stdout and stderr;
- Python's `float()`, the function `parse` from text to an optional number;
- the contents of a file, its sequence of lines.

Durations are exact `real`s.

Pass 1 is modelled as a fold. `Step` is one iteration of the loop at lines 142-167, and `Run`
applies it to each entry in turn. Once `t_used >= A`, `Step` returns its state unchanged. This is
the same as the source's `break`: every later iteration would break at once too, and
`Pass1Cutoff` and `RunSpent` state it. The classification that the source repeats inside Pass 1
(`e = ext(name)`) is done once beforehand, as the `Clip` kinds. It is the same function of the
same name, so the results are the same.

The comment at generate_process.py:175 says Pass 2 should not exceed the audio total. The code
does not guarantee that, and the model follows the code. While `t < A`, Pass 2 caps only the
stills, and zeroes items only once `t` has reached A. A still placed before a gif or video can
push the running time past what Pass 1 reserved, because of its one-second floor. The gif or video
after it keeps its full Pass 1 duration as long as `t` is still below A when it is reached.
`TargetCanBeOverrun` exhibits 9.5 seconds for A = 8. The bound is proved when either of these
holds:

- the floor does not come into play (`AllocationWithinTargetWithoutFloor`);
- no gif or video follows a still (`AllocationWithinTargetStillsLast`).

The final mux trims the video to A anyway, with `trim=duration={A}` (generate_process.py:286
and 304), so this is recorded here rather than as a defect.

## Model

| member | source | states |
|---|---|---|
| Text.DropFront | generate_process.py:103 | lstrip: the result is no longer than the input and does not begin with a character the strip removes |
| Text.DropBack | generate_process.py:103 | rstrip: the result is no longer than the input and does not end with a character the strip removes |
| Text.StripIdempotent | generate_process.py:55 | stripping a stripped string again changes nothing; `StripOfFileLine` uses it for the lines already stripped at lines 55 and 103 |
| Text.StripSurrounded | generate_process.py:106 | removable characters around a string whose ends are kept are exactly what strip removes |
| Text.FindFrom | generate_process.py:106 | the first occurrence of the separator at or after `i`: it occurs there and at no earlier index; None when it occurs nowhere |
| Text.IsSpace | generate_process.py:55 | the characters `str.strip()` removes: Python's whitespace, the ASCII controls 0x09-0x0D and 0x1C-0x1F, space and the Unicode spaces; `StripSurrounded` states what strip does with them |
| Text.StripWhere | generate_process.py:106 | computes `str.strip(chars)`: `StripSurrounded` states it removes exactly the removable characters around the kept core, `StripIdempotent` that it acts once |
| Text.Strip | generate_process.py:55 | computes `str.strip()`, `StripWhere` with whitespace; `StripSurrounded` pins its result |
| Text.StartsWith | generate_process.py:56 | `line.startswith("file ")`: the line is at least as long as the prefix and begins with it; `FileLines` keeps exactly these lines |
| Text.AfterFirst | generate_process.py:106 | computes `line.split("file", 1)[1]`: what follows the first occurrence that `FindFrom` finds; never longer than the line |
| Text.LastIndexOf | generate_process.py:113 | the last index holding the character, or -1; no later index holds it |
| Text.LastIndexOfAppend | generate_process.py:113 | in `s + t` the last occurrence is in `t` when `t` holds the character, otherwise the last in `s` |
| Text.Lower | generate_process.py:113 | same length, every character lower-cased on its own |
| Reals.Min | generate_process.py:150 | `min(a, b)` is at most both and equals one of them |
| Reals.Max | generate_process.py:138 | `max(a, b)` is at least both and equals one of them |
| Kinds.Extension | generate_process.py:113 | splitext's extension is empty or a suffix that begins with '.' and holds no '/' and no further '.'; a non-empty extension follows a base name, so ".gif" has none |
| Kinds.ExtensionOfAppended | generate_process.py:113 | an extension appended to a name with a base name is exactly the extension splitext finds |
| Kinds.ClassifyIgnoresCase | generate_process.py:113-127 | a name classifies the same with its extension in upper or lower case |
| Kinds.ClassifyGif | generate_process.py:121-122 | a base name followed by ".gif" is a gif |
| Kinds.ClassifyStill | generate_process.py:123-124 | a base name followed by any of the nine image extensions is a still |
| Kinds.ClassifyNoDot | generate_process.py:125-127 | a name with no dot has no extension and is a video |
| Kinds.ClassifyOther | generate_process.py:125-127 | a base name followed by any extension that lower-cases to neither ".gif" nor an image extension is a video |
| Kinds.ClassifyLeadingDot | generate_process.py:113-127 | a name whose only dot comes first, such as ".gif", has no extension and is a video |
| Kinds.Ext | generate_process.py:113 | computes `ext(p)`: splitext's extension, lower-cased; `ClassifyIgnoresCase` and `ExtensionOfAppended` state what it gives |
| Kinds.KindOf | generate_process.py:121-127 | computes the branch taken for a lower-cased extension: ".gif" a gif, the nine image extensions a still, anything else a video |
| Kinds.Classify | generate_process.py:119-127 | computes a name's kind; `ClassifyGif`, `ClassifyStill`, `ClassifyOther`, `ClassifyNoDot` and `ClassifyLeadingDot` state it for each kind of name |
| Kinds.OfKind | generate_process.py:119-127 | each list holds only manifest names of its own kind |
| Kinds.SplitByKind | generate_process.py:115-127 | the classification loop builds `gifs`, `stills` and `videos` as the names of each kind in manifest order |
| Kinds.KindsPartition | generate_process.py:119-127 | the three lists together hold every manifest name exactly as often as the manifest does |
| Manifest.FileLines | generate_process.py:101-104 | the kept lines are at most the input lines and each begins with "file " |
| Manifest.FileLinesAppend | generate_process.py:101-104 | the kept lines of two texts in a row are those of the first, then those of the second |
| Manifest.EntryName | generate_process.py:106 | computes the name in one "file" line: what follows the first "file", stripped of whitespace, then of single quotes, then of double quotes; `EntryNameOfWritten` gives it for a written line |
| Manifest.ManifestNames | generate_process.py:100-107 | one name per kept line |
| Manifest.ManifestNamesAt | generate_process.py:106-107 | the k-th name is the one parsed from the k-th kept line |
| Manifest.ReadManifest | generate_process.py:99-110 | succeeds exactly when there is a "file " line, with the names in order; otherwise fails with "No files found" |
| Manifest.ManifestLines | main.py:54-56 | one line `file '<name>'` per saved name, in order |
| Manifest.WrittenLinesAreSingleLines | main.py:50-56 | for names as `secure_filename` saves them, no written line holds a line break, so the file holds exactly these lines |
| Manifest.WrittenLineIsFileLine | main.py:54-56 | every line the upload handler writes is already stripped and is kept by the reader |
| Manifest.EntryNameOfWritten | generate_process.py:106 | the reader's parsing of a written line gives back the name, when the name is not wrapped in quotes |
| Manifest.FileLinesOfWritten | main.py:54-56 | for saved names (no line break, no quote at either end), the reader keeps every line the upload handler wrote, unchanged |
| Manifest.ManifestRoundTrip | main.py:54-56 | for saved names, reading back the written manifest gives those names, in order |
| Manifest.Interleave | generate_process.py:62-65 | twice as many lines; each file line in place 2k, its duration line in place 2k+1 |
| Manifest.MakeTimedConcat | generate_process.py:44-69 | fails exactly when there are no file lines; otherwise each file line is followed by its duration line, then the last file line once more, 2n+1 lines |
| Manifest.DurationLineIsNoFileLine | generate_process.py:65 | a "duration" line is never taken for a file line |
| Manifest.TimedConcatRereads | generate_process.py:62-65 | read back, the interleaved lines give the same file lines |
| Manifest.TimedConcatLines | generate_process.py:62-67 | read back, the timed manifest gives the original file lines with the last one repeated |
| Manifest.TimedConcatNames | generate_process.py:62-67 | read back, the timed manifest gives the original names with the last one repeated |
| Manifest.StripOfFileLine | generate_process.py:55-57 | every kept line is already stripped |
| Probe.MediaDuration | generate_process.py:72-86 | computes get_media_duration from one run: a non-zero exit status is a "ffprobe failed" error with its stderr; blank or "N/A" output once stripped is 0.0; otherwise float() of the stripped text, or an error where float() raises |
| Probe.ProbeAll | generate_process.py:135-138 | computes the `dur_map` loop: each name in turn probed, its duration clamped at 0.0 and recorded; the first failing probe aborts with its error |
| Probe.BlankOutputIsZero | generate_process.py:83-85 | a successful run with blank output is 0.0, whatever float() would do |
| Probe.NotAvailableIsZero | generate_process.py:83-85 | a successful run printing "N/A" with any whitespace around it is 0.0 |
| Probe.ProbeAllShape | generate_process.py:135-138 | a completed `dur_map` has as keys the entries it started with and the probed names, and no others; each probed name maps to its own probe's duration clamped at 0.0, and other entries are unchanged; a failure is the error of some name's probe |
| Probe.ProbeAllErrors | generate_process.py:80-86 | the loop fails only with a probe's error: a failed run or output float() rejects |
| Probe.ProbeAllFirstFailure | generate_process.py:136-138 | on failure, some name's probe fails with exactly that error and every name before it succeeds |
| Probe.ProbeAllOnlyProbesNames | generate_process.py:136-138 | probes that agree on the given names give the same outcome: no other name is probed |
| Probe.BuildDurationMap | generate_process.py:135-138 | the loop computes the `dur_map`; on success its keys are exactly the names, and every value is at least 0.0 |
| Timeline.Classified | generate_process.py:119-127 | one classified entry per manifest name |
| Timeline.ClassifiedAt | generate_process.py:142-146 | the k-th entry is the k-th name with the kind of its extension |
| Timeline.Raw | generate_process.py:149 | computes `dur_map.get(name, 0.0) or 0.0`: the recorded duration, or 0.0 for a name never probed |
| Timeline.Effective | generate_process.py:160-163 | computes the time a video falls back to: 1.0 when probed at 0 or less; a gif's probed time unchanged |
| Timeline.FixedDuration | generate_process.py:148-167 | a gif or video gets at most what is left and at most its effective probed time, and equals one of the two; a video always gets time while budget is left; a gif gets time exactly when it was probed at more than 0 and budget is left |
| Timeline.Step | generate_process.py:142-167 | computes one iteration of Pass 1: nothing once `t_used >= A`; a still appended pending; a gif or video appended with its trimmed time and that time spent, when positive |
| Timeline.Run | generate_process.py:142-167 | computes the loop of Pass 1 over a stretch of entries, one `Step` per entry in order |
| Timeline.Pass1 | generate_process.py:131-167 | computes Pass 1 from an empty timeline and `t_used = 0.0`; `Pass1Budget`, `Pass1Order`, `Pass1Cutoff` and `Pass1HardTrim` state what it gives |
| Timeline.StepConsistent | generate_process.py:142-167 | one iteration keeps the invariant: `t_used` is the placed time, 0 <= `t_used` <= A, stills pending, gifs and videos positive |
| Timeline.Pass1Budget | generate_process.py:131-167 | after Pass 1, `t_used` is the timeline's time and lies within [0, A]; stills are pending and every gif or video has positive time |
| Timeline.Pass1Order | generate_process.py:142-167 | Pass 1's items are manifest entries with their kinds, in manifest order, and it adds none |
| Timeline.RunAppend | generate_process.py:142-167 | the loop over two stretches of manifest is the loop over the first, then the second from there |
| Timeline.RunSpent | generate_process.py:143-144 | once `t_used >= A`, the rest of the loop changes nothing |
| Timeline.Pass1Cutoff | generate_process.py:143-144 | when a prefix of the manifest spends the budget, Pass 1 of the whole manifest is Pass 1 of that prefix |
| Timeline.Pass1Snoc | generate_process.py:142-167 | Pass 1 of one more entry is one more iteration |
| Timeline.Pass1HardTrim | generate_process.py:150-167 | a gif or video that does not fit gets exactly the time left, spends the budget, and nothing after it is placed |
| Timeline.Pass1KeepsStill | generate_process.py:155-156 | a still reached before the budget is spent enters the timeline pending and spends nothing |
| Timeline.FirstPass | generate_process.py:131-167 | the loop computes Pass 1's timeline and `t_used`, with `t_used` the placed time and within [0, A] |
| Timeline.StillCount | generate_process.py:171 | computes the number of stills in the timeline |
| Timeline.PerStill | generate_process.py:170-173 | 0 without stills; otherwise all stills together get exactly what is left when that is a second or more each, and exactly one second each when it is less |
| Timeline.Assigned | generate_process.py:177-186 | computes Pass 2's rule for one item: 0 once `t >= A`; a still `min(per_still, A - t)`; a gif or video keeps its Pass 1 time |
| Timeline.Pass2 | generate_process.py:176-186 | computes Pass 2 over the timeline with the running time `t`; `Pass2Rule`, `Pass2Exhausted` and `Pass2KeepsEntries` state what it gives |
| Timeline.Pass2KeepsEntries | generate_process.py:177-186 | Pass 2 changes durations only: each item keeps its name, kind and place |
| Timeline.Pass2Rule | generate_process.py:176-186 | each item is assigned from the time placed by the items before it |
| Timeline.Pass2Exhausted | generate_process.py:178-180 | once `t >= A`, every later item gets exactly 0, so their total is 0 |
| Timeline.Pass2NonNegative | generate_process.py:182-186 | no item gets a negative duration |
| Timeline.Pass2WithinNominal | generate_process.py:176-186 | Pass 2 never places more than `per_still` per still plus Pass 1's time for the rest |
| Timeline.NominalOfFirstPass | generate_process.py:170-186 | for Pass 1's output, that nominal time is Pass 1's time plus `per_still` times the still count |
| Timeline.Pass2StillsLast | generate_process.py:176-186 | when no gif or video follows a still, Pass 2 keeps the placed time within A |
| Timeline.SecondPass | generate_process.py:176-186 | the in-place loop leaves the array holding Pass 2 of its old contents |
| Timeline.KeepPositive | generate_process.py:189 | the kept items all have positive time and are the original items with some left out |
| Timeline.KeepPositiveTotal | generate_process.py:189 | dropping the items without time loses no time |
| Timeline.Allocation | generate_process.py:140-189 | computes the final timeline: Pass 1, `per_still` from what it left, Pass 2, then the items with time |
| Timeline.AllocationShape | generate_process.py:140-189 | every final item has positive time; the items are manifest entries with their kinds, in manifest order, none added |
| Timeline.AllocationKinds | generate_process.py:140-189 | every final item is a manifest name with the kind its extension gives |
| Timeline.FloorUnused | generate_process.py:170-173 | without the one-second floor, Pass 1's time plus the stills' share is at most A |
| Timeline.AllocationWithinTargetWithoutFloor | generate_process.py:169-189 | when what is left is at least a second per still, or there are no stills, the final timeline lasts at most A |
| Timeline.SharedTimeFits | generate_process.py:175-189 | when Pass 1's time plus `per_still` per still fits in A, the final timeline fits in A |
| Timeline.Pass1StillsLast | generate_process.py:142-167 | when no gif or video follows a still in the manifest, none follows one in Pass 1's timeline |
| Timeline.AllocationWithinTargetStillsLast | generate_process.py:169-189 | when no gif or video follows a still in the manifest, the final timeline lasts at most A |
| Timeline.TargetCanBeOverrun | generate_process.py:169-189 | two stills and then a 7.5-second video with A = 8 give a final timeline of 9.5 seconds |
| Timeline.OverrunManifestKinds | generate_process.py:113-127 | the names of that example classify as two stills and a video |
| Timeline.Pass1WithinSources | generate_process.py:148-167 | every Pass 1 item lasts at most A, and a gif or video at most its effective probed time |
| Timeline.Pass2WithinSources | generate_process.py:176-186 | Pass 2 keeps every item within A and within its source |
| Timeline.AllocationWithinSources | generate_process.py:140-189 | no final item lasts longer than A; no gif or video lasts longer than its probed time (one second for a video probed at 0) |
| Timeline.Pass1Empty | generate_process.py:142-167 | Pass 1 places nothing exactly when every entry is a gif probed at 0 or less |
| Timeline.AllocationEmpty | generate_process.py:140-189 | the final timeline is empty exactly when every entry is a gif probed at 0 or less |
| Timeline.Allocate | generate_process.py:140-189 | the allocator, with Pass 2 in place, computes the allocation; every item has positive time and the items keep manifest order |
| Reel.ReelPlan | generate_process.py:95-255 | computes what create_reel plans: the audio error, the "no files" error, a probe error, the "no clips" error, or the timeline to render; `ReelErrors`, `NoClipsExactly` and `ReelSuccess` state when each happens |
| Reel.PlanReel | generate_process.py:95-189 | create_reel's planning steps in its order compute the plan |
| Reel.ProbedNames | generate_process.py:136 | computes `gifs + videos`; `ProbedNamesAreMoving` states it holds exactly the manifest's gifs and videos |
| Reel.DurMapOf | generate_process.py:135-138 | computes the `dur_map` that `create_reel` builds over `gifs + videos`; `DurationMap` states its keys and values |
| Reel.ProbedNamesAreMoving | generate_process.py:136 | a manifest name is probed exactly when it is a gif or a video |
| Reel.DurationMap | generate_process.py:135-138 | a completed `dur_map` holds exactly the manifest's gifs and videos, each with its own probe's duration clamped at 0.0 |
| Reel.ReelErrors | generate_process.py:95-110 | the audio error exactly when A <= 0; "no files" exactly when A > 0 and there is no file line; a probe error exactly when both checks pass and the `dur_map` loop fails, and then it is that loop's error |
| Reel.NoClipsExactly | generate_process.py:254-255 | "no clips were generated" exactly when A > 0, the manifest has entries, every probe succeeds, and every entry is a gif with no probed time |
| Reel.ReelSuccess | generate_process.py:140-189 | a plan is a non-empty timeline of manifest entries in order, each lasting more than 0 and at most A, no gif or video longer than its probed time |
| Reel.StillsNeverProbed | generate_process.py:135-138 | the plan does not depend on what ffprobe would say about a still |

## Left out

- Rendering is not modelled: the per-item ffmpeg encodes, `clips.txt`, the concat, the background
  music mix and the final mux. The model stops at the list of items to render. Each item gives
  exactly one clip, so that list is empty exactly when the clip list is.
- `get_audio_duration` is not modelled. Its result is the parameter A.
- ffprobe is not modelled. Each run is the parameter `probe`, and the model does not say which
  path it is given.
- Python's `float()` is the parameter `parse`. NaN, infinities and binary floating-point rounding
  are not modelled; durations are exact reals.
- `make_timed_concat` writes `per_item_duration` with Python's float formatting, which is not
  modelled. The duration text is a parameter. The model also does not compute `input_timed.txt`'s
  path.
- File I/O, `os.makedirs` and the `[DEBUG]` prints are not modelled. A file is its sequence of
  lines, which leaves out text-mode newline translation.
- `str.lower` is modelled on ASCII letters only. Only two non-ASCII characters lower-case to
  something holding an ASCII letter: the Kelvin sign U+212A gives 'k', which no listed extension
  holds, and U+0130 gives 'i' followed by U+0307, two characters, so the lower-cased extension is
  longer than any listed one that holds an 'i' and matches none. The classification is therefore
  the same as Python's.
- `os.path.splitext` is modelled as on POSIX, with '/' as the only separator.
- A file is modelled as its lines, so the writer in `main.py` writes one line per name. The round
  trip is stated for names without line breaks or surrounding quotes, which `secure_filename`
  guarantees (main.py:50). `secure_filename` itself is not modelled.
- The job queue, Flask routes and text-to-speech in `main.py`, `tasks.py` and `text_to_audio.py`
  are not part of this model. The only exception is the manifest writer in `main.py`.
- Timeline.AllocationWithinTargetWithoutFloor: it proves total <= A only under its condition,
  because the code does not ensure it in general (see `TargetCanBeOverrun`).
- Timeline.AllocationWithinTargetStillsLast: it proves total <= A only when no gif or video
  follows a still, for the same reason.
