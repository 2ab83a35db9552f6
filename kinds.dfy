/** Kind classification of manifest entries by file extension (generate_process.py, create_reel). */
module Kinds {
  import opened Text

  /** The timeline's "kind" field: "gif", "still" or "video". */
  datatype Kind = Gif | Still | Video

  /** The image extensions that make a still, lower-case. */
  const StillExtensions: seq<string> :=
    [".png", ".jpg", ".jpeg", ".webp", ".jfif", ".bmp", ".tiff", ".tif", ".avif"]

  /** `os.path.splitext(p)[1]` on POSIX paths: from the last '.' of the last path component,
      unless that component is nothing but dots up to it (".gif" and "..gif" have no extension). */
  function Extension(p: string): (e: string)
    ensures e == [] || (e[0] == '.' && |e| <= |p| && e == p[|p| - |e|..])
    ensures e != [] ==> '/' !in e && '.' !in e[1..]
    ensures e != [] ==> HasBaseName(p[..|p| - |e|])
  {
    var sep := LastIndexOf(p, '/');
    var dot := LastIndexOf(p, '.');
    if dot > sep && exists k :: sep < k < dot && p[k] != '.' then
      LastIndexOfPrefix(p, '/', dot);
      p[dot..]
    else []
  }

  /** Cutting `s` after its last `c` keeps that last `c`. */
  lemma LastIndexOfPrefix(s: string, c: char, j: nat)
    requires LastIndexOf(s, c) < j <= |s|
    ensures LastIndexOf(s[..j], c) == LastIndexOf(s, c)
  {
    assert forall k :: 0 <= k < j ==> s[..j][k] == s[k];
  }

  /** The last path component of `stem` holds a character other than '.'. */
  predicate HasBaseName(stem: string) {
    exists k :: LastIndexOf(stem, '/') < k < |stem| && stem[k] != '.'
  }

  /** A well-formed extension: a dot and then neither dots nor slashes. */
  predicate IsExtension(e: string) {
    |e| >= 1 && e[0] == '.' && '.' !in e[1..] && '/' !in e
  }

  /** `ext(p)` in create_reel: the extension, lower-cased. */
  function Ext(p: string): string {
    Lower(Extension(p))
  }

  /** The branch create_reel takes for a lower-cased extension: ".gif" first, then the image table,
      and a video for anything else, the empty extension included. */
  function KindOf(e: string): Kind {
    if e == ".gif" then Gif
    else if e in StillExtensions then Still
    else Video
  }

  /** The kind of a manifest name. */
  function Classify(name: string): Kind {
    KindOf(Ext(name))
  }

  /** Lower-casing leaves a string without ASCII capitals unchanged. */
  lemma LowerUnchanged(s: string)
    requires forall k :: 0 <= k < |s| ==> !('A' <= s[k] <= 'Z')
    ensures Lower(s) == s
  {
  }

  /** Appending an extension to a name with a base name makes that exactly the extension splitext finds. */
  lemma ExtensionOfAppended(stem: string, e: string)
    requires HasBaseName(stem) && IsExtension(e)
    ensures Extension(stem + e) == e
  {
    var p := stem + e;
    LastIndexOfAppend(stem, e, '.');
    LastIndexOfAppend(stem, e, '/');
    forall j | 1 <= j < |e| ensures e[j] != '.' {
      assert e[j] == e[1..][j - 1];
    }
    var k :| LastIndexOf(stem, '/') < k < |stem| && stem[k] != '.';
    assert p[k] == stem[k];
    assert p[|stem|..] == e;
  }

  /** Classification ignores the case of the extension. */
  lemma ClassifyIgnoresCase(stem: string, e: string)
    requires HasBaseName(stem) && IsExtension(e)
    ensures Classify(stem + e) == Classify(stem + Lower(e))
  {
    ExtensionOfAppended(stem, e);
    var l := Lower(e);
    assert '.' !in l[1..] by {
      forall k | 1 <= k < |l| ensures l[k] != '.' {
        assert e[k] in e[1..];
      }
    }
    assert '/' !in l by {
      forall k | 0 <= k < |l| ensures l[k] != '/' {
        assert e[k] in e;
      }
    }
    ExtensionOfAppended(stem, l);
    forall k | 0 <= k < |l| ensures !('A' <= l[k] <= 'Z') {
      LowerCharNotUpper(e[k]);
    }
    LowerUnchanged(l);
  }

  /** A name ending in ".gif" after a base name is a gif. */
  lemma ClassifyGif(stem: string)
    requires HasBaseName(stem)
    ensures Classify(stem + ".gif") == Gif
  {
    ExtensionOfAppended(stem, ".gif");
    LowerUnchanged(".gif");
  }

  /** A name ending in one of the listed image extensions after a base name is a still. */
  lemma ClassifyStill(stem: string, i: nat)
    requires HasBaseName(stem) && i < |StillExtensions|
    ensures Classify(stem + StillExtensions[i]) == Still
  {
    var e := StillExtensions[i];
    assert IsExtension(e);
    ExtensionOfAppended(stem, e);
    LowerUnchanged(e);
  }

  /** A name without any dot has no extension and is a video. */
  lemma ClassifyNoDot(name: string)
    requires '.' !in name
    ensures Classify(name) == Video
  {
    assert LastIndexOf(name, '.') == -1;
    assert Extension(name) == [];
  }

  /** A base name followed by any other extension, in whatever case, is a video. */
  lemma ClassifyOther(stem: string, e: string)
    requires HasBaseName(stem) && IsExtension(e)
    requires Lower(e) != ".gif" && Lower(e) !in StillExtensions
    ensures Classify(stem + e) == Video
  {
    ExtensionOfAppended(stem, e);
  }

  /** A name whose only dot leads it, such as ".gif", has no extension and is a video. */
  lemma ClassifyLeadingDot(rest: string)
    requires '.' !in rest && '/' !in rest
    ensures Classify("." + rest) == Video
  {
    var p := "." + rest;
    assert forall k :: 1 <= k < |p| ==> p[k] == rest[k - 1];
    assert Extension(p) == [];
    assert Lower([]) == [];
  }

  /** The names of `files` of kind `k`, in manifest order. */
  function OfKind(files: seq<string>, k: Kind): (r: seq<string>)
    ensures |r| <= |files|
    ensures forall n :: n in r ==> n in files && Classify(n) == k
  {
    if files == [] then []
    else if Classify(files[|files| - 1]) == k then OfKind(files[..|files| - 1], k) + [files[|files| - 1]]
    else OfKind(files[..|files| - 1], k)
  }

  /** The classification loop: every name goes to exactly one of the three lists, in order. */
  method SplitByKind(files: seq<string>) returns (gifs: seq<string>, stills: seq<string>, videos: seq<string>)
    ensures gifs == OfKind(files, Gif)
    ensures stills == OfKind(files, Still)
    ensures videos == OfKind(files, Video)
  {
    gifs, stills, videos := [], [], [];
    for i := 0 to |files|
      invariant gifs == OfKind(files[..i], Gif)
      invariant stills == OfKind(files[..i], Still)
      invariant videos == OfKind(files[..i], Video)
    {
      assert files[..i + 1][..i] == files[..i];
      var name := files[i];
      match Classify(name)
      case Gif => gifs := gifs + [name];
      case Still => stills := stills + [name];
      case Video => videos := videos + [name];
    }
    assert files[..|files|] == files;
  }

  /** `OfKind` over a non-empty manifest: its last name goes to its own kind's list only. */
  lemma OfKindLast(files: seq<string>, k: Kind)
    requires files != []
    ensures OfKind(files, k)
            == if Classify(files[|files| - 1]) == k then OfKind(files[..|files| - 1], k) + [files[|files| - 1]]
               else OfKind(files[..|files| - 1], k)
  {
  }

  /** Three lists that partition a prefix, with the next name appended to one of them, partition the longer manifest. */
  lemma PartitionSnoc(files: seq<string>, g: seq<string>, s: seq<string>, v: seq<string>,
                      g': seq<string>, s': seq<string>, v': seq<string>)
    requires files != []
    requires multiset(g) + multiset(s) + multiset(v) == multiset(files[..|files| - 1])
    requires (g' == g + [files[|files| - 1]] && s' == s && v' == v)
          || (g' == g && s' == s + [files[|files| - 1]] && v' == v)
          || (g' == g && s' == s && v' == v + [files[|files| - 1]])
    ensures multiset(g') + multiset(s') + multiset(v') == multiset(files)
  {
    assert files == files[..|files| - 1] + [files[|files| - 1]];
  }

  /** The three lists partition the manifest. */
  lemma {:induction false} KindsPartition(files: seq<string>)
    ensures multiset(OfKind(files, Gif)) + multiset(OfKind(files, Still)) + multiset(OfKind(files, Video))
            == multiset(files)
  {
    if files != [] {
      var init := files[..|files| - 1];
      KindsPartition(init);
      OfKindLast(files, Gif);
      OfKindLast(files, Still);
      OfKindLast(files, Video);
      PartitionSnoc(files, OfKind(init, Gif), OfKind(init, Still), OfKind(init, Video),
                    OfKind(files, Gif), OfKind(files, Still), OfKind(files, Video));
    }
  }
}
