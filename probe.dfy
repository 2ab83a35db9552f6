/** Probing the duration of gifs and videos: get_media_duration's normalisation of ffprobe's output,
    and the loop in create_reel that fills `dur_map`. The ffprobe process is a parameter. */
module Probe {
  import opened Wrappers
  import opened Text
  import opened Reals

  /** What one ffprobe run reports: its exit status and its two output streams. */
  datatype ProbeRun = ProbeRun(exitCode: int, stdout: string, stderr: string)

  /** get_media_duration: a failed run is an error, empty or "N/A" output (once stripped) is 0.0,
      and anything else is what `parse` (Python's float() on the stripped text; None where it raises)
      makes of it. */
  function MediaDuration(name: string, run: ProbeRun, parse: string -> Option<real>): Result<real, ReelError> {
    if run.exitCode != 0 then Failure(ProbeFailed(name, run.stderr))
    else
      var raw := Strip(run.stdout);
      if raw == "" || raw == "N/A" then Success(0.0)
      else match parse(raw)
        case None => Failure(BadProbeOutput(raw))
        case Some(v) => Success(v)
  }

  /** Output made of whitespace only is a duration of 0.0, whatever the parser would say. */
  lemma BlankOutputIsZero(name: string, run: ProbeRun, parse: string -> Option<real>)
    requires run.exitCode == 0
    requires forall k :: 0 <= k < |run.stdout| ==> IsSpace(run.stdout[k])
    ensures MediaDuration(name, run, parse) == Success(0.0)
  {
    StripAllDropped(run.stdout, Whitespace);
  }

  /** "N/A", with any whitespace around it, is a duration of 0.0, whatever the parser would say. */
  lemma NotAvailableIsZero(name: string, run: ProbeRun, parse: string -> Option<real>, before: string, after: string)
    requires run.exitCode == 0 && run.stdout == before + "N/A" + after
    requires forall k :: 0 <= k < |before| ==> IsSpace(before[k])
    requires forall k :: 0 <= k < |after| ==> IsSpace(after[k])
    ensures MediaDuration(name, run, parse) == Success(0.0)
  {
    StripSurrounded(before, "N/A", after, Whitespace);
  }

  /** The `dur_map` loop from the entries already in `acc`: each name in turn is probed and its
      duration, clamped at 0.0, recorded; the first failing probe aborts. */
  function ProbeAll(names: seq<string>, probe: string -> ProbeRun, parse: string -> Option<real>,
                    acc: map<string, real>): Result<map<string, real>, ReelError>
    decreases |names|
  {
    if names == [] then Success(acc)
    else match MediaDuration(names[0], probe(names[0]), parse)
      case Failure(e) => Failure(e)
      case Success(d) => ProbeAll(names[1..], probe, parse, acc[names[0] := Max(0.0, d)])
  }

  /** A completed `dur_map` holds every probed name, with its own probe's duration clamped at 0.0,
      and nothing else is changed; a failure is the error of some name's probe. */
  lemma {:induction false} ProbeAllShape(names: seq<string>, probe: string -> ProbeRun,
                                         parse: string -> Option<real>, acc: map<string, real>)
    ensures var r := ProbeAll(names, probe, parse, acc);
      r.Success? ==>
        && (forall n :: n in r.value <==> n in acc || n in names)
        && (forall n :: n in names ==> MediaDuration(n, probe(n), parse).Success?
                                       && r.value[n] == Max(0.0, MediaDuration(n, probe(n), parse).value))
        && (forall n :: n in acc && n !in names ==> r.value[n] == acc[n])
    ensures var r := ProbeAll(names, probe, parse, acc);
      r.Failure? ==> exists n :: n in names && MediaDuration(n, probe(n), parse) == Failure(r.error)
    decreases |names|
  {
    if names != [] {
      var n0 := names[0];
      var d := MediaDuration(n0, probe(n0), parse);
      if d.Success? {
        ProbeAllShape(names[1..], probe, parse, acc[n0 := Max(0.0, d.value)]);
        assert forall n :: n in names <==> n == n0 || n in names[1..];
      }
    }
  }

  /** The loop fails only with the error of a probe: a failed run or output float() rejects. */
  lemma {:induction false} ProbeAllErrors(names: seq<string>, probe: string -> ProbeRun,
                                          parse: string -> Option<real>, acc: map<string, real>)
    ensures var r := ProbeAll(names, probe, parse, acc);
      r.Failure? ==> r.error.ProbeFailed? || r.error.BadProbeOutput?
    decreases |names|
  {
    if names != [] {
      var d := MediaDuration(names[0], probe(names[0]), parse);
      if d.Success? {
        ProbeAllErrors(names[1..], probe, parse, acc[names[0] := Max(0.0, d.value)]);
      }
    }
  }

  /** The loop aborts at the FIRST name whose probe fails, with that probe's error: every name before it
      was probed successfully. */
  lemma {:induction false} ProbeAllFirstFailure(names: seq<string>, probe: string -> ProbeRun,
                                                parse: string -> Option<real>, acc: map<string, real>)
    ensures var r := ProbeAll(names, probe, parse, acc);
      r.Failure? ==>
        exists k :: 0 <= k < |names| && MediaDuration(names[k], probe(names[k]), parse) == Failure(r.error)
                 && forall j :: 0 <= j < k ==> MediaDuration(names[j], probe(names[j]), parse).Success?
    decreases |names|
  {
    var r := ProbeAll(names, probe, parse, acc);
    if names != [] && r.Failure? {
      var d := MediaDuration(names[0], probe(names[0]), parse);
      if d.Failure? {
        assert MediaDuration(names[0], probe(names[0]), parse) == Failure(r.error);
      } else {
        var rest := names[1..];
        ProbeAllFirstFailure(rest, probe, parse, acc[names[0] := Max(0.0, d.value)]);
        var k :| 0 <= k < |rest| && MediaDuration(rest[k], probe(rest[k]), parse) == Failure(r.error)
                 && forall j :: 0 <= j < k ==> MediaDuration(rest[j], probe(rest[j]), parse).Success?;
        assert names[k + 1] == rest[k];
        forall j | 0 <= j < k + 1 ensures MediaDuration(names[j], probe(names[j]), parse).Success? {
          if j > 0 {
            assert names[j] == rest[j - 1];
          }
        }
      }
    }
  }

  /** The loop only runs the probe on the names it is given: two probes that agree on them give the
      same outcome. */
  lemma {:induction false} ProbeAllOnlyProbesNames(names: seq<string>, probe1: string -> ProbeRun, probe2: string -> ProbeRun,
                                                   parse: string -> Option<real>, acc: map<string, real>)
    requires forall n :: n in names ==> probe1(n) == probe2(n)
    ensures ProbeAll(names, probe1, parse, acc) == ProbeAll(names, probe2, parse, acc)
    decreases |names|
  {
    if names != [] {
      assert probe1(names[0]) == probe2(names[0]);
      var d := MediaDuration(names[0], probe1(names[0]), parse);
      if d.Success? {
        assert forall n :: n in names[1..] ==> n in names;
        ProbeAllOnlyProbesNames(names[1..], probe1, probe2, parse, acc[names[0] := Max(0.0, d.value)]);
      }
    }
  }

  /** The `dur_map` loop of create_reel over the gif and video names. */
  method BuildDurationMap(names: seq<string>, probe: string -> ProbeRun, parse: string -> Option<real>)
    returns (r: Result<map<string, real>, ReelError>)
    ensures r == ProbeAll(names, probe, parse, map[])
    ensures r.Success? ==> forall n :: n in r.value <==> n in names
    ensures r.Success? ==> forall n :: n in r.value ==> r.value[n] >= 0.0
  {
    ProbeAllShape(names, probe, parse, map[]);
    var durMap: map<string, real> := map[];
    for i := 0 to |names|
      invariant ProbeAll(names[i..], probe, parse, durMap) == ProbeAll(names, probe, parse, map[])
    {
      assert names[i..][1..] == names[i + 1..];
      var d := MediaDuration(names[i], probe(names[i]), parse);
      if d.Failure? {
        return Failure(d.error);
      }
      durMap := durMap[names[i] := Max(0.0, d.value)];
    }
    r := Success(durMap);
  }
}
