/** Option and Result, and the error kinds that abort reel creation. */
module Wrappers {

  datatype Option<+T> = None | Some(value: T)

  datatype Result<+R, +E> = Success(value: R) | Failure(error: E)

  /** The errors that create_reel and make_timed_concat raise, one constructor per message. */
  datatype ReelError =
    | AudioDurationZero                              // "Audio duration is 0. Check audio.mp3"
    | NoFilesInManifest                              // "No files found in input.txt"
    | NoFileLines                                    // "No 'file' lines found in ..."
    | ProbeFailed(name: string, stderr: string)      // "ffprobe failed for ...": non-zero exit
    | BadProbeOutput(text: string)                   // float() refused the probe's output
    | NoClipsGenerated                               // "No clips were generated (clip_paths is empty)."
}
