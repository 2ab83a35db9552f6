/** create_reel up to the rendering of the clips: the audio-length guard, reading the manifest, the
    classification, the `dur_map` probes, the two-pass allocation and the "no clips" guard. The audio
    length A and the manifest's lines are parameters; the ffprobe runs are the function `probe` from a
    manifest name to its run, and Python's float() is `parse`. Every timeline item is rendered to
    exactly one clip, so the clip list is empty exactly when the timeline is. */
module Reel {
  import opened Wrappers
  import opened Reals
  import opened Kinds
  import opened Manifest
  import opened Probe
  import opened Timeline

  /** The gif and video names, in the order `gifs + videos` probes them. */
  function ProbedNames(files: seq<string>): seq<string> {
    OfKind(files, Gif) + OfKind(files, Video)
  }

  /** What create_reel plans for audio of A seconds and a manifest: the timeline to render, or the
      error it raises first. */
  function ReelPlan(A: real, lines: seq<string>, probe: string -> ProbeRun, parse: string -> Option<real>)
    : Result<seq<Entry>, ReelError>
  {
    if A <= 0.0 then Failure(AudioDurationZero)
    else if FileLines(lines) == [] then Failure(NoFilesInManifest)
    else
      match DurMapOf(lines, probe, parse)
      case Failure(e) => Failure(e)
      case Success(durMap) =>
        var timeline := Allocation(Classified(ManifestNames(lines)), durMap, A);
        if timeline == [] then Failure(NoClipsGenerated) else Success(timeline)
  }

  /** The planning steps of create_reel, in its order. */
  method PlanReel(A: real, lines: seq<string>, probe: string -> ProbeRun, parse: string -> Option<real>)
    returns (r: Result<seq<Entry>, ReelError>)
    ensures r == ReelPlan(A, lines, probe, parse)
  {
    if A <= 0.0 {
      return Failure(AudioDurationZero);
    }
    var read := ReadManifest(lines);
    if read.Failure? {
      return Failure(read.error);
    }
    var files := read.value;
    var gifs, stills, videos := SplitByKind(files);
    var probed := BuildDurationMap(gifs + videos, probe, parse);
    if probed.Failure? {
      return Failure(probed.error);
    }
    var timeline := Allocate(Classified(files), probed.value, A);
    if timeline == [] {
      return Failure(NoClipsGenerated);
    }
    r := Success(timeline);
  }

  /** A name of the manifest is probed exactly when it is a gif or a video. */
  lemma ProbedNamesAreMoving(files: seq<string>)
    ensures forall n :: n in ProbedNames(files) <==> n in files && Classify(n) != Still
  {
    KindsPartition(files);
    forall n | n in files && Classify(n) != Still ensures n in ProbedNames(files) {
      assert n in multiset(files);
      assert n !in OfKind(files, Still);
    }
  }

  /** The `dur_map` create_reel builds for a manifest. */
  function DurMapOf(lines: seq<string>, probe: string -> ProbeRun, parse: string -> Option<real>)
    : Result<map<string, real>, ReelError>
  {
    ProbeAll(ProbedNames(ManifestNames(lines)), probe, parse, map[])
  }

  /** A completed `dur_map` holds exactly the gifs and videos of the manifest, each with its own probe's
      duration clamped at 0.0. */
  lemma DurationMap(lines: seq<string>, probe: string -> ProbeRun, parse: string -> Option<real>)
    ensures var pr := DurMapOf(lines, probe, parse);
      pr.Success? ==>
        && (forall n :: n in pr.value <==> n in ManifestNames(lines) && Classify(n) != Still)
        && forall n :: n in pr.value ==>
             MediaDuration(n, probe(n), parse).Success? && pr.value[n] == Max(0.0, MediaDuration(n, probe(n), parse).value)
  {
    ProbeAllShape(ProbedNames(ManifestNames(lines)), probe, parse, map[]);
    ProbedNamesAreMoving(ManifestNames(lines));
  }

  /** The errors of create_reel's planning, each raised exactly when its cause holds and no earlier
      check fired: A <= 0; no `file` line; a failing probe of the `dur_map` loop, whose error it is. */
  lemma ReelErrors(A: real, lines: seq<string>, probe: string -> ProbeRun, parse: string -> Option<real>)
    ensures var r := ReelPlan(A, lines, probe, parse);
      && (r == Failure(AudioDurationZero) <==> A <= 0.0)
      && (r == Failure(NoFilesInManifest) <==> A > 0.0 && FileLines(lines) == [])
      && (r.Failure? && (r.error.ProbeFailed? || r.error.BadProbeOutput?) <==>
            A > 0.0 && FileLines(lines) != [] && DurMapOf(lines, probe, parse).Failure?)
      && (r.Failure? && (r.error.ProbeFailed? || r.error.BadProbeOutput?) ==>
            r.error == DurMapOf(lines, probe, parse).error)
  {
    ProbeAllErrors(ProbedNames(ManifestNames(lines)), probe, parse, map[]);
  }

  /** "No clips were generated" is raised exactly when the audio has length, the manifest has entries,
      every probe succeeds, and every entry is a gif for which `dur_map` holds no time. */
  lemma NoClipsExactly(A: real, lines: seq<string>, probe: string -> ProbeRun, parse: string -> Option<real>)
    ensures ReelPlan(A, lines, probe, parse) == Failure(NoClipsGenerated) <==>
      && A > 0.0 && FileLines(lines) != [] && DurMapOf(lines, probe, parse).Success?
      && var clips := Classified(ManifestNames(lines));
         forall k :: 0 <= k < |clips| ==>
           clips[k].kind == Gif && Raw(clips[k].name, DurMapOf(lines, probe, parse).value) <= 0.0
  {
    if A > 0.0 && FileLines(lines) != [] {
      var pr := DurMapOf(lines, probe, parse);
      if pr.Success? {
        var clips := Classified(ManifestNames(lines));
        assert ReelPlan(A, lines, probe, parse) == Failure(NoClipsGenerated) <==> Allocation(clips, pr.value, A) == [] by {
          if Allocation(clips, pr.value, A) != [] {
            assert ReelPlan(A, lines, probe, parse) == Success(Allocation(clips, pr.value, A));
          }
        }
        AllocationEmpty(clips, pr.value, A);
      } else {
        assert ReelPlan(A, lines, probe, parse) == Failure(pr.error);
        ProbeAllErrors(ProbedNames(ManifestNames(lines)), probe, parse, map[]);
      }
    }
  }

  /** A planned reel: a non-empty timeline of manifest entries with their kinds, in manifest order,
      each with a positive duration of at most A; a gif or video never longer than what `dur_map` holds
      for it (a video with no more than 0 there, one second). */
  lemma ReelSuccess(A: real, lines: seq<string>, probe: string -> ProbeRun, parse: string -> Option<real>)
    ensures var r := ReelPlan(A, lines, probe, parse);
      r.Success? ==>
        && r.value != []
        && IsSubsequence(ClipsOf(r.value), Classified(ManifestNames(lines)))
        && forall k :: 0 <= k < |r.value| ==>
             && r.value[k].dur.Some? && 0.0 < r.value[k].dur.value <= A
             && (r.value[k].kind != Still ==>
                   r.value[k].dur.value <= Effective(r.value[k].kind, Raw(r.value[k].name, DurMapOf(lines, probe, parse).value)))
  {
    var r := ReelPlan(A, lines, probe, parse);
    if r.Success? {
      var clips := Classified(ManifestNames(lines));
      var durMap := DurMapOf(lines, probe, parse).value;
      assert r.value == Allocation(clips, durMap, A);
      AllocationShape(clips, durMap, A);
      AllocationWithinSources(clips, durMap, A);
    }
  }

  /** Stills are never probed: the plan does not depend on what the probe would say about them. */
  lemma StillsNeverProbed(A: real, lines: seq<string>, probe1: string -> ProbeRun, probe2: string -> ProbeRun,
                          parse: string -> Option<real>)
    requires forall n :: Classify(n) != Still ==> probe1(n) == probe2(n)
    ensures ReelPlan(A, lines, probe1, parse) == ReelPlan(A, lines, probe2, parse)
  {
    var names := ProbedNames(ManifestNames(lines));
    ProbedNamesAreMoving(ManifestNames(lines));
    ProbeAllOnlyProbesNames(names, probe1, probe2, parse, map[]);
  }
}
