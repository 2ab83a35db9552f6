/** The timeline allocator of create_reel: how many seconds each manifest entry gets in a reel of
    target length A. Pass 1 walks the manifest with a running budget `t_used`, trims gifs and videos
    to it and stops once it is spent; the stills it reached share what is left, at least one second
    each; Pass 2 walks the timeline again with a running time `t`, gives each still `per_still` capped
    at the time left, `A - t`, and gives every item reached once `t` has reached A nothing; the items
    left with no time are dropped. */
module Timeline {
  import opened Wrappers
  import opened Reals
  import opened Kinds
  import opened Text

  /** A manifest entry with the kind its extension gives it. */
  datatype Clip = Clip(name: string, kind: Kind)

  /** A timeline item, the dict {name, kind, dur}; `dur` is None for a still until Pass 2. */
  datatype Entry = Entry(name: string, kind: Kind, dur: Option<real>)

  /** The manifest entries, each with its kind. */
  function Classified(files: seq<string>): (r: seq<Clip>)
    ensures |r| == |files|
    decreases |files|
  {
    if files == [] then [] else [Clip(files[0], Classify(files[0]))] + Classified(files[1..])
  }

  /** The k-th entry is the k-th name with its kind. */
  lemma {:induction false} ClassifiedAt(files: seq<string>, k: nat)
    requires k < |files|
    ensures Classified(files)[k] == Clip(files[k], Classify(files[k]))
    decreases k
  {
    if k > 0 {
      ClassifiedAt(files[1..], k - 1);
    }
  }

  /** The seconds an item occupies: its duration, or nothing while undetermined. */
  function Seconds(e: Entry): real {
    if e.dur.Some? then e.dur.value else 0.0
  }

  /** The seconds a sequence of items occupies. */
  function Total(items: seq<Entry>): real
    decreases |items|
  {
    if items == [] then 0.0 else Seconds(items[0]) + Total(items[1..])
  }

  lemma {:induction false} TotalAppend(a: seq<Entry>, b: seq<Entry>)
    ensures Total(a + b) == Total(a) + Total(b)
    decreases |a|
  {
    if a == [] {
      assert a + b == b;
    } else {
      assert (a + b)[1..] == a[1..] + b;
      TotalAppend(a[1..], b);
    }
  }

  lemma {:induction false} TotalNonNegative(items: seq<Entry>)
    requires forall k :: 0 <= k < |items| ==> Seconds(items[k]) >= 0.0
    ensures Total(items) >= 0.0
    decreases |items|
  {
    if items != [] {
      TotalNonNegative(items[1..]);
    }
  }

  /** The entries the items were made from: their names and kinds, in order. */
  function ClipsOf(items: seq<Entry>): (r: seq<Clip>)
    ensures |r| == |items|
    decreases |items|
  {
    if items == [] then [] else [Clip(items[0].name, items[0].kind)] + ClipsOf(items[1..])
  }

  /** The k-th entry is the k-th item's name and kind. */
  lemma {:induction false} ClipsOfAt(items: seq<Entry>, k: nat)
    requires k < |items|
    ensures ClipsOf(items)[k] == Clip(items[k].name, items[k].kind)
    decreases k
  {
    if k > 0 {
      ClipsOfAt(items[1..], k - 1);
    }
  }

  /** `xs` is `ys` with some elements left out: same order, nothing added. */
  predicate IsSubsequence<T(==)>(xs: seq<T>, ys: seq<T>)
    decreases |ys|
  {
    xs == [] || (ys != [] && ((xs[0] == ys[0] && IsSubsequence(xs[1..], ys[1..])) || IsSubsequence(xs, ys[1..])))
  }

  /** Leaving out elements twice is leaving out elements once. */
  lemma {:induction false} SubsequenceTransitive<T>(xs: seq<T>, ys: seq<T>, zs: seq<T>)
    requires IsSubsequence(xs, ys) && IsSubsequence(ys, zs)
    ensures IsSubsequence(xs, zs)
    decreases |zs|, |ys|
  {
    if xs != [] {
      if ys[0] == zs[0] && IsSubsequence(ys[1..], zs[1..]) {
        if xs[0] == ys[0] && IsSubsequence(xs[1..], ys[1..]) {
          SubsequenceTransitive(xs[1..], ys[1..], zs[1..]);
        } else {
          SubsequenceTransitive(xs, ys[1..], zs[1..]);
        }
      } else {
        SubsequenceTransitive(xs, ys, zs[1..]);
      }
    }
  }

  /** Every element of a subsequence is an element of the sequence. */
  lemma {:induction false} SubsequenceMembers<T>(xs: seq<T>, ys: seq<T>)
    requires IsSubsequence(xs, ys)
    ensures forall x :: x in xs ==> x in ys
    decreases |ys|
  {
    if xs != [] {
      if xs[0] == ys[0] && IsSubsequence(xs[1..], ys[1..]) {
        SubsequenceMembers(xs[1..], ys[1..]);
        assert forall x :: x in xs ==> x == xs[0] || x in xs[1..];
      } else {
        SubsequenceMembers(xs, ys[1..]);
      }
    }
  }

  // ---------------------------------------------------------------- Pass 1

  /** `dur_map.get(name, 0.0) or 0.0`. */
  function Raw(name: string, durMap: map<string, real>): real {
    if name in durMap then durMap[name] else 0.0
  }

  /** The raw duration Pass 1 trims: as probed, except that a video probed at no more than 0 counts as 1 second. */
  function Effective(kind: Kind, raw: real): real {
    if kind == Video && raw <= 0.0 then 1.0 else raw
  }

  /** Pass 1's duration for a gif or video with `budget` = `A - t_used` seconds left. */
  function FixedDuration(kind: Kind, raw: real, budget: real): (d: real)
    ensures d <= budget && d <= Effective(kind, raw)
    ensures d == budget || d == Effective(kind, raw)
    ensures kind == Video && budget > 0.0 ==> d > 0.0
    ensures kind == Gif ==> (d > 0.0 <==> raw > 0.0 && budget > 0.0)
  {
    Min(Effective(kind, raw), budget)
  }

  /** Pass 1's loop state: the timeline so far and `t_used`, the seconds given to gifs and videos. */
  datatype Plan = Plan(timeline: seq<Entry>, used: real)

  /** One iteration of Pass 1 over entry `c`. Once `t_used` reaches A the loop has broken and nothing
      changes; otherwise a still is appended undetermined, and a gif or video, trimmed to what is left,
      is appended and spends its time if that leaves it any. */
  function Step(s: Plan, c: Clip, durMap: map<string, real>, A: real): Plan {
    if s.used >= A then s
    else if c.kind == Still then Plan(s.timeline + [Entry(c.name, Still, None)], s.used)
    else
      var d := FixedDuration(c.kind, Raw(c.name, durMap), A - s.used);
      if d > 0.0 then Plan(s.timeline + [Entry(c.name, c.kind, Some(d))], s.used + d) else s
  }

  /** Pass 1's loop over `clips` from state `s`. */
  function Run(s: Plan, clips: seq<Clip>, durMap: map<string, real>, A: real): Plan
    decreases |clips|
  {
    if clips == [] then s
    else Step(Run(s, clips[..|clips| - 1], durMap, A), clips[|clips| - 1], durMap, A)
  }

  /** Pass 1 over the manifest entries, from an empty timeline and `t_used = 0.0`. */
  function Pass1(clips: seq<Clip>, durMap: map<string, real>, A: real): Plan {
    Run(Plan([], 0.0), clips, durMap, A)
  }

  /** What Pass 1 produces: stills undetermined, gifs and videos with a positive duration. */
  predicate FirstPassShape(items: seq<Entry>) {
    forall k :: 0 <= k < |items| ==>
      && (items[k].kind == Still <==> items[k].dur.None?)
      && (items[k].dur.Some? ==> items[k].dur.value > 0.0)
  }

  /** Items in the shape of Pass 1's output occupy no negative time. */
  lemma FirstPassNonNegative(items: seq<Entry>)
    requires FirstPassShape(items)
    ensures forall k :: 0 <= k < |items| ==> Seconds(items[k]) >= 0.0
  {
  }

  /** Pass 1's loop invariant: `t_used` is the time of the timeline, within the budget, and the timeline
      has Pass 1's shape. */
  predicate Consistent(s: Plan, A: real) {
    0.0 <= s.used <= A && s.used == Total(s.timeline) && FirstPassShape(s.timeline)
  }

  /** One iteration keeps the invariant. */
  lemma StepConsistent(s: Plan, c: Clip, durMap: map<string, real>, A: real)
    requires Consistent(s, A)
    ensures Consistent(Step(s, c, durMap, A), A)
  {
    var r := Step(s, c, durMap, A);
    if r != s {
      var e := r.timeline[|s.timeline|];
      assert r.timeline == s.timeline + [e];
      TotalAppend(s.timeline, [e]);
      assert Total([e]) == Seconds(e);
    }
  }

  /** Pass 1 never spends more than the budget, `t_used` is the time of its timeline, and the timeline
      has Pass 1's shape. */
  lemma {:induction false} Pass1Budget(clips: seq<Clip>, durMap: map<string, real>, A: real)
    requires 0.0 <= A
    ensures Consistent(Pass1(clips, durMap, A), A)
    decreases |clips|
  {
    if clips != [] {
      Pass1Budget(clips[..|clips| - 1], durMap, A);
      StepConsistent(Pass1(clips[..|clips| - 1], durMap, A), clips[|clips| - 1], durMap, A);
    }
  }

  /** One more element at the end of a sequence keeps a subsequence a subsequence. */
  lemma {:induction false} SubsequenceExtend<T>(xs: seq<T>, ys: seq<T>, z: T)
    requires IsSubsequence(xs, ys)
    ensures IsSubsequence(xs, ys + [z])
    decreases |ys|
  {
    if xs != [] {
      assert (ys + [z])[0] == ys[0] && (ys + [z])[1..] == ys[1..] + [z];
      if xs[0] == ys[0] && IsSubsequence(xs[1..], ys[1..]) {
        SubsequenceExtend(xs[1..], ys[1..], z);
      } else {
        SubsequenceExtend(xs, ys[1..], z);
      }
    }
  }

  /** The same element at the end of both keeps a subsequence a subsequence. */
  lemma {:induction false} SubsequenceSnoc<T>(xs: seq<T>, ys: seq<T>, z: T)
    requires IsSubsequence(xs, ys)
    ensures IsSubsequence(xs + [z], ys + [z])
    decreases |ys|
  {
    if ys == [] {
      assert xs == [] && xs + [z] == ys + [z];
      assert (xs + [z])[1..] == [];
    } else {
      assert (ys + [z])[0] == ys[0] && (ys + [z])[1..] == ys[1..] + [z];
      if xs != [] && xs[0] == ys[0] && IsSubsequence(xs[1..], ys[1..]) {
        SubsequenceSnoc(xs[1..], ys[1..], z);
        assert (xs + [z])[0] == xs[0] && (xs + [z])[1..] == xs[1..] + [z];
      } else {
        SubsequenceSnoc(xs, ys[1..], z);
      }
    }
  }

  /** The entries of items with one more at the end. */
  lemma {:induction false} ClipsOfSnoc(items: seq<Entry>, e: Entry)
    ensures ClipsOf(items + [e]) == ClipsOf(items) + [Clip(e.name, e.kind)]
    decreases |items|
  {
    if items == [] {
      assert items + [e] == [e];
    } else {
      assert (items + [e])[1..] == items[1..] + [e];
      ClipsOfSnoc(items[1..], e);
    }
  }

  /** Pass 1 keeps the entries in manifest order, with their kinds, and adds none. */
  lemma {:induction false} Pass1Order(clips: seq<Clip>, durMap: map<string, real>, A: real)
    ensures IsSubsequence(ClipsOf(Pass1(clips, durMap, A).timeline), clips)
    decreases |clips|
  {
    if clips != [] {
      var init, c := clips[..|clips| - 1], clips[|clips| - 1];
      var s := Pass1(init, durMap, A);
      var r := Step(s, c, durMap, A);
      Pass1Order(init, durMap, A);
      assert clips == init + [c];
      if r == s {
        SubsequenceExtend(ClipsOf(s.timeline), init, c);
      } else {
        var e := r.timeline[|s.timeline|];
        assert r.timeline == s.timeline + [e] && Clip(e.name, e.kind) == c;
        ClipsOfSnoc(s.timeline, e);
        SubsequenceSnoc(ClipsOf(s.timeline), init, c);
      }
    }
  }

  /** The loop over two stretches of manifest is the loop over the first, then over the second from
      where the first left it. */
  lemma {:induction false} RunAppend(s: Plan, xs: seq<Clip>, ys: seq<Clip>, durMap: map<string, real>, A: real)
    ensures Run(s, xs + ys, durMap, A) == Run(Run(s, xs, durMap, A), ys, durMap, A)
    decreases |ys|
  {
    if ys == [] {
      assert xs + ys == xs;
    } else {
      var init := ys[..|ys| - 1];
      assert (xs + ys)[..|xs + ys| - 1] == xs + init;
      RunAppend(s, xs, init, durMap, A);
    }
  }

  /** Once the budget is spent, the rest of the loop changes nothing. */
  lemma {:induction false} RunSpent(s: Plan, clips: seq<Clip>, durMap: map<string, real>, A: real)
    requires s.used >= A
    ensures Run(s, clips, durMap, A) == s
    decreases |clips|
  {
    if clips != [] {
      RunSpent(s, clips[..|clips| - 1], durMap, A);
    }
  }

  /** The hard cutoff: once the gifs and videos of a prefix of the manifest fill the target,
      nothing after that prefix, stills included, enters the timeline. */
  lemma Pass1Cutoff(clips: seq<Clip>, k: nat, durMap: map<string, real>, A: real)
    requires k <= |clips|
    requires Pass1(clips[..k], durMap, A).used >= A
    ensures Pass1(clips, durMap, A) == Pass1(clips[..k], durMap, A)
  {
    assert clips == clips[..k] + clips[k..];
    RunAppend(Plan([], 0.0), clips[..k], clips[k..], durMap, A);
    RunSpent(Pass1(clips[..k], durMap, A), clips[k..], durMap, A);
  }

  /** Pass 1 of the entries `xs`, then `c`: the loop's next iteration. */
  lemma Pass1Snoc(xs: seq<Clip>, c: Clip, durMap: map<string, real>, A: real)
    ensures Pass1(xs + [c], durMap, A) == Step(Pass1(xs, durMap, A), c, durMap, A)
  {
    assert (xs + [c])[..|xs + [c]| - 1] == xs;
  }

  /** A gif or video that does not fit in what is left is trimmed to exactly what is left, spends the
      whole budget, and is the last item of the timeline. */
  lemma Pass1HardTrim(xs: seq<Clip>, c: Clip, ys: seq<Clip>, durMap: map<string, real>, A: real)
    requires Pass1(xs, durMap, A).used < A
    requires c.kind != Still
    requires Effective(c.kind, Raw(c.name, durMap)) >= A - Pass1(xs, durMap, A).used
    ensures var before := Pass1(xs, durMap, A);
      Pass1(xs + [c] + ys, durMap, A) == Plan(before.timeline + [Entry(c.name, c.kind, Some(A - before.used))], A)
  {
    var before := Pass1(xs, durMap, A);
    Pass1Snoc(xs, c, durMap, A);
    var trimmed := Pass1(xs + [c], durMap, A);
    assert trimmed == Plan(before.timeline + [Entry(c.name, c.kind, Some(A - before.used))], A);
    RunAppend(Plan([], 0.0), xs + [c], ys, durMap, A);
    RunSpent(trimmed, ys, durMap, A);
  }

  /** A still reached before the budget is spent enters the timeline undetermined and spends nothing. */
  lemma Pass1KeepsStill(xs: seq<Clip>, name: string, ys: seq<Clip>, durMap: map<string, real>, A: real)
    requires Pass1(xs, durMap, A).used < A
    ensures var before := Pass1(xs, durMap, A);
      Pass1(xs + [Clip(name, Still)] + ys, durMap, A)
      == Run(Plan(before.timeline + [Entry(name, Still, None)], before.used), ys, durMap, A)
  {
    var c := Clip(name, Still);
    Pass1Snoc(xs, c, durMap, A);
    RunAppend(Plan([], 0.0), xs + [c], ys, durMap, A);
  }

  /** Pass 1 of create_reel over the manifest entries with their kinds: the timeline in manifest order
      and `t_used`, the seconds given to gifs and videos. */
  method FirstPass(clips: seq<Clip>, durMap: map<string, real>, A: real) returns (timeline: seq<Entry>, used: real)
    requires A > 0.0
    ensures Plan(timeline, used) == Pass1(clips, durMap, A)
    ensures used == Total(timeline) && 0.0 <= used <= A
  {
    timeline, used := [], 0.0;
    var i := 0;
    while i < |clips|
      invariant 0 <= i <= |clips|
      invariant Plan(timeline, used) == Pass1(clips[..i], durMap, A)
    {
      if used >= A {
        break;
      }
      var name, kind := clips[i].name, clips[i].kind;
      ghost var before := Plan(timeline, used);
      if kind == Gif {
        var raw := Raw(name, durMap);
        var dur := Min(raw, A - used);
        if dur > 0.0 {
          timeline := timeline + [Entry(name, Gif, Some(dur))];
          used := used + dur;
        }
      } else if kind == Still {
        timeline := timeline + [Entry(name, Still, None)];
      } else {
        var raw := Raw(name, durMap);
        if raw <= 0.0 {
          raw := 1.0;
        }
        var dur := Min(raw, A - used);
        if dur > 0.0 {
          timeline := timeline + [Entry(name, Video, Some(dur))];
          used := used + dur;
        }
      }
      assert Plan(timeline, used) == Step(before, clips[i], durMap, A);
      assert clips[..i + 1] == clips[..i] + [clips[i]];
      Pass1Snoc(clips[..i], clips[i], durMap, A);
      i := i + 1;
    }
    if i < |clips| {
      Pass1Cutoff(clips, i, durMap, A);
    } else {
      assert clips[..i] == clips;
    }
    Pass1Budget(clips, durMap, A);
  }

  // ---------------------------------------------------------------- Pass 2

  /** The number of stills in the items. */
  function StillCount(items: seq<Entry>): nat
    decreases |items|
  {
    if items == [] then 0 else (if items[0].kind == Still then 1 else 0) + StillCount(items[1..])
  }

  /** `per_still`: the time left after Pass 1, `max(0, A - t_used)`, shared among the stills,
      but never less than one second each; 0.0 when there is no still. */
  function PerStill(A: real, used: real, stillCount: nat): (r: real)
    ensures stillCount == 0 ==> r == 0.0
    ensures stillCount > 0 ==> r >= 1.0 && r * (stillCount as real) >= Max(0.0, A - used)
    ensures stillCount > 0 && Max(0.0, A - used) >= stillCount as real ==> r * (stillCount as real) == Max(0.0, A - used)
    ensures stillCount > 0 && Max(0.0, A - used) < stillCount as real ==> r == 1.0
  {
    var remaining := Max(0.0, A - used);
    if stillCount > 0 then Max(1.0, remaining / stillCount as real) else 0.0
  }

  /** Pass 2's rule for one item reached when `t` seconds are already placed: nothing once `t` reaches A,
      a still `min(per_still, A - t)`, a gif or video what Pass 1 gave it. */
  function Assigned(e: Entry, perStill: real, A: real, t: real): Entry {
    if t >= A then e.(dur := Some(0.0))
    else if e.kind == Still then e.(dur := Some(Min(perStill, A - t)))
    else e
  }

  /** Pass 2 from the items on, with `t` seconds already placed. */
  function Pass2(items: seq<Entry>, perStill: real, A: real, t: real): (r: seq<Entry>)
    ensures |r| == |items|
    decreases |items|
  {
    if items == [] then []
    else
      var e := Assigned(items[0], perStill, A, t);
      [e] + Pass2(items[1..], perStill, A, t + Seconds(e))
  }

  /** Pass 2 changes durations only: every item keeps its name, its kind and its place. */
  lemma {:induction false} Pass2KeepsEntries(items: seq<Entry>, perStill: real, A: real, t: real)
    ensures ClipsOf(Pass2(items, perStill, A, t)) == ClipsOf(items)
    decreases |items|
  {
    if items != [] {
      var e := Assigned(items[0], perStill, A, t);
      Pass2KeepsEntries(items[1..], perStill, A, t + Seconds(e));
      assert ClipsOf(Pass2(items, perStill, A, t)) == [Clip(e.name, e.kind)] + ClipsOf(Pass2(items[1..], perStill, A, t + Seconds(e)));
    }
  }

  /** The rule of Pass 2 item by item: each item is assigned by what the items before it were given. */
  lemma {:induction false} Pass2Rule(items: seq<Entry>, perStill: real, A: real, t: real, k: nat)
    requires k < |items|
    ensures var r := Pass2(items, perStill, A, t);
      r[k] == Assigned(items[k], perStill, A, t + Total(r[..k]))
    decreases k
  {
    var r := Pass2(items, perStill, A, t);
    if k > 0 {
      var e := Assigned(items[0], perStill, A, t);
      Pass2Rule(items[1..], perStill, A, t + Seconds(e), k - 1);
      assert r[..k][1..] == r[1..][..k - 1];
    }
  }

  /** Once the placed time reaches the target, every later item gets nothing. */
  lemma {:induction false} Pass2Exhausted(items: seq<Entry>, perStill: real, A: real, t: real)
    requires t >= A
    ensures forall k :: 0 <= k < |items| ==> Pass2(items, perStill, A, t)[k].dur == Some(0.0)
    ensures Total(Pass2(items, perStill, A, t)) == 0.0
    decreases |items|
  {
    if items != [] {
      Pass2Exhausted(items[1..], perStill, A, t);
    }
  }

  /** Pass 2 never assigns a negative duration to items that had none. */
  lemma {:induction false} Pass2NonNegative(items: seq<Entry>, perStill: real, A: real, t: real)
    requires perStill >= 0.0
    requires forall k :: 0 <= k < |items| ==> Seconds(items[k]) >= 0.0
    ensures forall k :: 0 <= k < |items| ==> Seconds(Pass2(items, perStill, A, t)[k]) >= 0.0
    decreases |items|
  {
    if items != [] {
      var e := Assigned(items[0], perStill, A, t);
      Pass2NonNegative(items[1..], perStill, A, t + Seconds(e));
    }
  }

  /** The time Pass 2 would place if nothing were capped: `per_still` for each still, Pass 1's duration otherwise. */
  function Nominal(items: seq<Entry>, perStill: real): real
    decreases |items|
  {
    if items == [] then 0.0
    else (if items[0].kind == Still then perStill else Seconds(items[0])) + Nominal(items[1..], perStill)
  }

  /** Pass 2 never places more than the nominal time. */
  lemma {:induction false} Pass2WithinNominal(items: seq<Entry>, perStill: real, A: real, t: real)
    requires perStill >= 0.0
    requires forall k :: 0 <= k < |items| ==> Seconds(items[k]) >= 0.0
    ensures Total(Pass2(items, perStill, A, t)) <= Nominal(items, perStill)
    decreases |items|
  {
    if items != [] {
      var e := Assigned(items[0], perStill, A, t);
      Pass2WithinNominal(items[1..], perStill, A, t + Seconds(e));
    }
  }

  /** For Pass 1's output the nominal time is the gifs' and videos' time plus `per_still` per still. */
  lemma {:induction false} NominalOfFirstPass(items: seq<Entry>, perStill: real)
    requires FirstPassShape(items)
    ensures Nominal(items, perStill) == Total(items) + perStill * (StillCount(items) as real)
    decreases |items|
  {
    if items != [] {
      NominalOfFirstPass(items[1..], perStill);
    }
  }

  /** Pass 2 over Pass 1's output adds at most `per_still` per still. */
  lemma Pass2OfFirstPass(first: seq<Entry>, perStill: real, A: real)
    requires FirstPassShape(first) && perStill >= 0.0
    ensures Total(Pass2(first, perStill, A, 0.0)) <= Total(first) + perStill * (StillCount(first) as real)
  {
    FirstPassNonNegative(first);
    Pass2WithinNominal(first, perStill, A, 0.0);
    NominalOfFirstPass(first, perStill);
  }

  /** No gif or video after a still. */
  predicate StillsLast(items: seq<Entry>) {
    forall i, j :: 0 <= i < j < |items| && items[i].kind == Still ==> items[j].kind == Still
  }

  /** Undetermined stills occupy no time. */
  lemma {:induction false} TotalOfPendingStills(items: seq<Entry>)
    requires forall k :: 0 <= k < |items| ==> items[k].kind == Still && items[k].dur.None?
    ensures Total(items) == 0.0
    decreases |items|
  {
    if items != [] {
      TotalOfPendingStills(items[1..]);
    }
  }

  /** When no gif or video follows a still, Pass 2 keeps the placed time within the target. */
  lemma {:induction false} Pass2StillsLast(items: seq<Entry>, perStill: real, A: real, t: real)
    requires FirstPassShape(items) && StillsLast(items)
    requires t <= A && t + Total(items) <= A
    ensures t + Total(Pass2(items, perStill, A, t)) <= A
    decreases |items|
  {
    if items != [] {
      var e := Assigned(items[0], perStill, A, t);
      var rest := items[1..];
      if t >= A {
        Pass2Exhausted(items, perStill, A, t);
      } else {
        if items[0].kind == Still {
          assert forall k :: 0 <= k < |rest| ==> rest[k] == items[k + 1];
          TotalOfPendingStills(rest);
        } else {
          TotalNonNegative(rest);
        }
        Pass2StillsLast(rest, perStill, A, t + Seconds(e));
      }
    }
  }

  /** Pass 2 of create_reel, assigning every item's duration in place. */
  method SecondPass(items: array<Entry>, perStill: real, A: real)
    modifies items
    ensures items[..] == Pass2(old(items[..]), perStill, A, 0.0)
  {
    ghost var original := items[..];
    var t := 0.0;
    for i := 0 to items.Length
      invariant items[i..] == original[i..]
      invariant items[..i] + Pass2(original[i..], perStill, A, t) == Pass2(original, perStill, A, 0.0)
    {
      ghost var e := Assigned(original[i], perStill, A, t);
      ghost var t0 := t;
      ghost var done := items[..i];
      assert items[i] == original[i];
      if t >= A {
        items[i] := items[i].(dur := Some(0.0));
      } else {
        if items[i].kind == Still {
          items[i] := items[i].(dur := Some(Min(perStill, A - t)));
        }
        t := t + Seconds(items[i]);
      }
      assert items[i] == e && t == t0 + Seconds(e);
      assert items[..i + 1] == done + [e];
      assert items[i + 1..] == original[i + 1..];
      SecondPassStep(original, i, done, perStill, A, t0);
      assert items[..i + 1] + Pass2(original[i + 1..], perStill, A, t) == Pass2(original, perStill, A, 0.0);
    }
    assert items[..items.Length] == items[..];
  }

  /** One iteration of SecondPass keeps its invariant: the items assigned so far, then Pass 2 of the rest. */
  lemma SecondPassStep(original: seq<Entry>, i: nat, done: seq<Entry>, perStill: real, A: real, t: real)
    requires i < |original|
    ensures var e := Assigned(original[i], perStill, A, t);
      done + Pass2(original[i..], perStill, A, t) == (done + [e]) + Pass2(original[i + 1..], perStill, A, t + Seconds(e))
  {
    var e := Assigned(original[i], perStill, A, t);
    assert original[i..][0] == original[i] && original[i..][1..] == original[i + 1..];
    var rest := Pass2(original[i + 1..], perStill, A, t + Seconds(e));
    assert Pass2(original[i..], perStill, A, t) == [e] + rest;
    assert done + ([e] + rest) == (done + [e]) + rest;
  }

  // ---------------------------------------------------------------- the final timeline

  /** `[x for x in timeline if x["dur"] and x["dur"] > 0]`. */
  function KeepPositive(items: seq<Entry>): (r: seq<Entry>)
    ensures forall k :: 0 <= k < |r| ==> r[k].dur.Some? && r[k].dur.value > 0.0
    ensures IsSubsequence(r, items)
    decreases |items|
  {
    if items == [] then []
    else if items[0].dur.Some? && items[0].dur.value > 0.0 then [items[0]] + KeepPositive(items[1..])
    else KeepPositive(items[1..])
  }

  /** Dropping the items without time loses no time. */
  lemma {:induction false} KeepPositiveTotal(items: seq<Entry>)
    requires forall k :: 0 <= k < |items| ==> Seconds(items[k]) >= 0.0
    ensures Total(KeepPositive(items)) == Total(items)
    decreases |items|
  {
    if items != [] {
      KeepPositiveTotal(items[1..]);
    }
  }

  /** The entries of a subsequence of items form a subsequence of their entries. */
  lemma {:induction false} ClipsOfSubsequence(xs: seq<Entry>, ys: seq<Entry>)
    requires IsSubsequence(xs, ys)
    ensures IsSubsequence(ClipsOf(xs), ClipsOf(ys))
    decreases |ys|
  {
    if xs != [] {
      if xs[0] == ys[0] && IsSubsequence(xs[1..], ys[1..]) {
        ClipsOfSubsequence(xs[1..], ys[1..]);
        assert ClipsOf(xs)[1..] == ClipsOf(xs[1..]);
      } else {
        ClipsOfSubsequence(xs, ys[1..]);
      }
      assert ClipsOf(ys)[1..] == ClipsOf(ys[1..]);
    }
  }

  /** The whole allocation of the manifest entries: Pass 1, `per_still` from what it left, Pass 2, then
      the items with time. */
  function Allocation(clips: seq<Clip>, durMap: map<string, real>, A: real): seq<Entry> {
    var first := Pass1(clips, durMap, A);
    KeepPositive(Pass2(first.timeline, PerStill(A, first.used, StillCount(first.timeline)), A, 0.0))
  }

  /** The final timeline: every item has positive time, and the items are manifest entries with their
      kinds, in manifest order, with entries left out but none added. */
  lemma AllocationShape(clips: seq<Clip>, durMap: map<string, real>, A: real)
    ensures var r := Allocation(clips, durMap, A);
      && (forall k :: 0 <= k < |r| ==> r[k].dur.Some? && r[k].dur.value > 0.0)
      && IsSubsequence(ClipsOf(r), clips)
  {
    var p := Pass1(clips, durMap, A);
    var first := p.timeline;
    var ps := PerStill(A, p.used, StillCount(first));
    var second := Pass2(first, ps, A, 0.0);
    var r := KeepPositive(second);
    Pass1Order(clips, durMap, A);
    ClipsOfSubsequence(r, second);
    Pass2KeepsEntries(first, ps, A, 0.0);
    SubsequenceTransitive(ClipsOf(r), ClipsOf(first), clips);
  }

  /** Every entry of the classified manifest is a manifest name with the kind of that name. */
  lemma {:induction false} ClassifiedKinds(files: seq<string>)
    ensures forall c :: c in Classified(files) ==> c.name in files && c.kind == Classify(c.name)
    decreases |files|
  {
    if files != [] {
      ClassifiedKinds(files[1..]);
    }
  }

  /** Every item of the final timeline of a manifest is a manifest name with the kind of that name. */
  lemma AllocationKinds(files: seq<string>, durMap: map<string, real>, A: real)
    ensures var r := Allocation(Classified(files), durMap, A);
      forall k :: 0 <= k < |r| ==> r[k].name in files && r[k].kind == Classify(r[k].name)
  {
    var clips := Classified(files);
    var r := Allocation(clips, durMap, A);
    AllocationShape(clips, durMap, A);
    SubsequenceMembers(ClipsOf(r), clips);
    ClassifiedKinds(files);
    forall k | 0 <= k < |r| ensures r[k].name in files && r[k].kind == Classify(r[k].name) {
      ClipsOfAt(r, k);
      assert ClipsOf(r)[k] in clips;
    }
  }

  /** Without the one-second floor the stills share exactly what Pass 1 left. */
  lemma FloorUnused(A: real, used: real, stillCount: nat)
    requires 0.0 <= used <= A
    requires stillCount == 0 || A - used >= stillCount as real
    ensures used + PerStill(A, used, stillCount) * (stillCount as real) <= A
  {
  }

  /** When the one-second floor does not come into play, the final timeline fits in the target. */
  lemma AllocationWithinTargetWithoutFloor(clips: seq<Clip>, durMap: map<string, real>, A: real)
    requires A > 0.0
    requires var p := Pass1(clips, durMap, A);
      StillCount(p.timeline) == 0 || Max(0.0, A - p.used) >= StillCount(p.timeline) as real
    ensures Total(Allocation(clips, durMap, A)) <= A
  {
    var p := Pass1(clips, durMap, A);
    var first := p.timeline;
    var n := StillCount(first);
    var ps := PerStill(A, p.used, n);
    Pass1Budget(clips, durMap, A);
    FloorUnused(A, p.used, n);
    SharedTimeFits(first, ps, A);
  }

  /** Pass 1's output and a `per_still` whose share for all stills fits what Pass 1 left give a final
      timeline within the target. */
  lemma SharedTimeFits(first: seq<Entry>, perStill: real, A: real)
    requires FirstPassShape(first) && perStill >= 0.0
    requires Total(first) + perStill * (StillCount(first) as real) <= A
    ensures Total(KeepPositive(Pass2(first, perStill, A, 0.0))) <= A
  {
    var second := Pass2(first, perStill, A, 0.0);
    Pass2OfFirstPass(first, perStill, A);
    FirstPassNonNegative(first);
    Pass2NonNegative(first, perStill, A, 0.0);
    KeepPositiveTotal(second);
  }

  /** No gif or video after a still among the entries. */
  predicate ClipsStillsLast(clips: seq<Clip>) {
    forall i, j :: 0 <= i < j < |clips| && clips[i].kind == Still ==> clips[j].kind == Still
  }

  /** Every item of Pass 1 has the kind of some entry. */
  lemma Pass1Kinds(clips: seq<Clip>, durMap: map<string, real>, A: real)
    ensures var t := Pass1(clips, durMap, A).timeline;
      forall k :: 0 <= k < |t| ==> Clip(t[k].name, t[k].kind) in clips
  {
    var t := Pass1(clips, durMap, A).timeline;
    Pass1Order(clips, durMap, A);
    SubsequenceMembers(ClipsOf(t), clips);
    forall k | 0 <= k < |t| ensures Clip(t[k].name, t[k].kind) in clips {
      ClipsOfAt(t, k);
      assert ClipsOf(t)[k] in ClipsOf(t);
    }
  }

  /** Pass 1 of entries with no gif or video after a still has none after a still either. */
  lemma {:induction false} Pass1StillsLast(clips: seq<Clip>, durMap: map<string, real>, A: real)
    requires ClipsStillsLast(clips)
    ensures StillsLast(Pass1(clips, durMap, A).timeline)
    decreases |clips|
  {
    if clips != [] {
      var init, c := clips[..|clips| - 1], clips[|clips| - 1];
      var s := Pass1(init, durMap, A);
      var r := Step(s, c, durMap, A);
      assert ClipsStillsLast(init) by {
        forall i, j | 0 <= i < j < |init| && init[i].kind == Still ensures init[j].kind == Still {
          assert init[i] == clips[i] && init[j] == clips[j];
        }
      }
      Pass1StillsLast(init, durMap, A);
      assert clips == init + [c];
      if r != s {
        var e := r.timeline[|s.timeline|];
        var t := s.timeline + [e];
        assert r.timeline == t && e.kind == c.kind;
        if c.kind != Still {
          Pass1Kinds(init, durMap, A);
          forall k | 0 <= k < |s.timeline| ensures s.timeline[k].kind != Still {
            var i :| 0 <= i < |init| && init[i] == Clip(s.timeline[k].name, s.timeline[k].kind);
            assert clips[i] == init[i];
          }
        }
        forall i, j | 0 <= i < j < |t| && t[i].kind == Still ensures t[j].kind == Still {
          assert t[i] == s.timeline[i];
          if j < |s.timeline| {
            assert t[j] == s.timeline[j];
          }
        }
      }
    }
  }

  /** When no gif or video follows a still in the manifest, the final timeline fits in the target. */
  lemma AllocationWithinTargetStillsLast(clips: seq<Clip>, durMap: map<string, real>, A: real)
    requires A > 0.0
    requires ClipsStillsLast(clips)
    ensures Total(Allocation(clips, durMap, A)) <= A
  {
    var p := Pass1(clips, durMap, A);
    var first := p.timeline;
    var ps := PerStill(A, p.used, StillCount(first));
    var second := Pass2(first, ps, A, 0.0);
    Pass1Budget(clips, durMap, A);
    Pass1StillsLast(clips, durMap, A);
    Pass2StillsLast(first, ps, A, 0.0);
    FirstPassNonNegative(first);
    Pass2NonNegative(first, ps, A, 0.0);
    KeepPositiveTotal(second);
  }

  /** Without either condition the target can be overrun: two stills then a 7.5-second video,
      with A = 8, give 1 + 1 + 7.5 seconds. */
  lemma TargetCanBeOverrun()
    ensures var clips := [Clip("a.png", Still), Clip("b.png", Still), Clip("clip", Video)];
      Total(Allocation(clips, map["clip" := 7.5], 8.0)) == 9.5
  {
    var c1, c2, c3 := Clip("a.png", Still), Clip("b.png", Still), Clip("clip", Video);
    var clips := [c1, c2, c3];
    var durMap := map["clip" := 7.5];
    var A := 8.0;
    var e1, e2, e3 := Entry("a.png", Still, None), Entry("b.png", Still, None), Entry("clip", Video, Some(7.5));
    assert Pass1([c1], durMap, A) == Plan([e1], 0.0) by {
      Pass1Snoc([], c1, durMap, A);
      assert [] + [c1] == [c1];
    }
    assert Pass1([c1, c2], durMap, A) == Plan([e1, e2], 0.0) by {
      Pass1Snoc([c1], c2, durMap, A);
      assert [c1] + [c2] == [c1, c2];
    }
    assert Pass1(clips, durMap, A) == Plan([e1, e2, e3], 7.5) by {
      Pass1Snoc([c1, c2], c3, durMap, A);
      assert [c1, c2] + [c3] == clips;
    }
    var first := [e1, e2, e3];
    assert first[1..] == [e2, e3] && first[1..][1..] == [e3];
    assert StillCount([e3]) == 0;
    assert StillCount(first) == 2;
    var ps := PerStill(A, 7.5, 2);
    assert ps == 1.0;
    var s1, s2 := e1.(dur := Some(1.0)), e2.(dur := Some(1.0));
    assert Pass2([e3], ps, A, 2.0) == [e3];
    assert [e2, e3][1..] == [e3];
    assert Pass2([e2, e3], ps, A, 1.0) == [s2, e3];
    var second := Pass2(first, ps, A, 0.0);
    assert second == [s1, s2, e3];
    assert second[1..] == [s2, e3] && second[1..][1..] == [e3];
    assert KeepPositive([e3]) == [e3];
    assert KeepPositive(second) == second;
    assert [e3][1..] == [] && Total([e3]) == 7.5;
    assert Total([s2, e3]) == 8.5;
    assert Total(second) == 9.5;
  }

  /** The manifest of that example classifies as two stills and a video. */
  lemma OverrunManifestKinds()
    ensures Classified(["a.png", "b.png", "clip"]) == [Clip("a.png", Still), Clip("b.png", Still), Clip("clip", Video)]
  {
    assert Classify("a.png") == Still by {
      StillName("a");
    }
    assert Classify("b.png") == Still by {
      StillName("b");
    }
    assert Classify("clip") == Video by {
      NoDotInClip();
      ClassifyNoDot("clip");
    }
    ClassifiedThree("a.png", "b.png", "clip");
  }

  /** "clip" has no dot. */
  lemma NoDotInClip()
    ensures '.' !in "clip"
  {
    assert "clip" == ['c', 'l', 'i', 'p'];
  }

  /** Three names classify one by one. */
  lemma ClassifiedThree(a: string, b: string, c: string)
    ensures Classified([a, b, c]) == [Clip(a, Classify(a)), Clip(b, Classify(b)), Clip(c, Classify(c))]
  {
    var files := [a, b, c];
    ClassifiedAt(files, 0);
    ClassifiedAt(files, 1);
    ClassifiedAt(files, 2);
  }

  /** A one-letter name with ".png" after it is a still. */
  lemma StillName(stem: string)
    requires |stem| == 1 && stem[0] != '.' && stem[0] != '/'
    ensures Classify(stem + ".png") == Still
    ensures Classify([stem[0], '.', 'p', 'n', 'g']) == Still
  {
    assert stem + ".png" == [stem[0], '.', 'p', 'n', 'g'];
    assert LastIndexOf(stem, '/') == -1;
    assert HasBaseName(stem);
    ClassifyStill(stem, 0);
  }

  /** An item with time lasts at most the target, and a gif or video at most its probed duration
      (a video probed at no more than 0, one second). */
  predicate WithinSource(e: Entry, durMap: map<string, real>, A: real) {
    e.dur.Some? && e.dur.value > 0.0 ==>
      e.dur.value <= A && (e.kind != Still ==> e.dur.value <= Effective(e.kind, Raw(e.name, durMap)))
  }

  /** Every item is within its source. */
  predicate AllWithinSource(items: seq<Entry>, durMap: map<string, real>, A: real) {
    forall k :: 0 <= k < |items| ==> WithinSource(items[k], durMap, A)
  }

  /** Pass 1 keeps every item within its source. */
  lemma {:induction false} Pass1WithinSources(clips: seq<Clip>, durMap: map<string, real>, A: real)
    requires 0.0 <= A
    ensures AllWithinSource(Pass1(clips, durMap, A).timeline, durMap, A)
    decreases |clips|
  {
    if clips != [] {
      var init, c := clips[..|clips| - 1], clips[|clips| - 1];
      var s := Pass1(init, durMap, A);
      var r := Step(s, c, durMap, A);
      assert Pass1(clips, durMap, A) == r;
      Pass1WithinSources(init, durMap, A);
      Pass1Budget(init, durMap, A);
      if r != s {
        var e := r.timeline[|s.timeline|];
        assert r.timeline == s.timeline + [e];
        if c.kind != Still {
          var d := FixedDuration(c.kind, Raw(c.name, durMap), A - s.used);
          assert e == Entry(c.name, c.kind, Some(d));
        }
        assert WithinSource(e, durMap, A);
        forall k | 0 <= k < |r.timeline| ensures WithinSource(r.timeline[k], durMap, A) {
          if k < |s.timeline| {
            assert r.timeline[k] == s.timeline[k];
          }
        }
      }
    }
  }

  lemma {:induction false} Pass2WithinSources(items: seq<Entry>, perStill: real, durMap: map<string, real>, A: real, t: real)
    requires 0.0 <= t && 0.0 <= perStill
    requires forall k :: 0 <= k < |items| ==> Seconds(items[k]) >= 0.0
    requires AllWithinSource(items, durMap, A)
    ensures AllWithinSource(Pass2(items, perStill, A, t), durMap, A)
    decreases |items|
  {
    if items != [] {
      var e := Assigned(items[0], perStill, A, t);
      if t < A && items[0].kind == Still {
        assert e.dur.value == Min(perStill, A - t);
      }
      assert Seconds(e) >= 0.0 && WithinSource(e, durMap, A);
      var rest := Pass2(items[1..], perStill, A, t + Seconds(e));
      Pass2WithinSources(items[1..], perStill, durMap, A, t + Seconds(e));
      var r := Pass2(items, perStill, A, t);
      assert r == [e] + rest;
      forall k | 0 <= k < |r| ensures WithinSource(r[k], durMap, A) {
        if k > 0 {
          assert r[k] == rest[k - 1];
          assert WithinSource(rest[k - 1], durMap, A);
        } else {
          assert r[k] == e;
        }
      }
    }
  }

  /** No item of the final timeline lasts longer than the target, and no gif or video longer than its
      probed duration (a video probed at no more than 0, one second). */
  lemma AllocationWithinSources(clips: seq<Clip>, durMap: map<string, real>, A: real)
    ensures var r := Allocation(clips, durMap, A);
      forall k :: 0 <= k < |r| ==>
        r[k].dur.value <= A && (r[k].kind != Still ==> r[k].dur.value <= Effective(r[k].kind, Raw(r[k].name, durMap)))
  {
    var p := Pass1(clips, durMap, A);
    var first := p.timeline;
    var ps := PerStill(A, p.used, StillCount(first));
    var second := Pass2(first, ps, A, 0.0);
    var r := KeepPositive(second);
    if A < 0.0 {
      RunSpent(Plan([], 0.0), clips, durMap, A);
      assert first == [];
    } else {
      Pass1Budget(clips, durMap, A);
      Pass1WithinSources(clips, durMap, A);
      FirstPassNonNegative(first);
      Pass2WithinSources(first, ps, durMap, A, 0.0);
      SubsequenceMembers(r, second);
      forall k | 0 <= k < |r| ensures WithinSource(r[k], durMap, A) {
        assert r[k] in second;
      }
    }
  }

  /** Pass 1 places nothing exactly when every entry is a gif whose probe gave no time. */
  lemma {:induction false} Pass1Empty(clips: seq<Clip>, durMap: map<string, real>, A: real)
    requires A > 0.0
    ensures Pass1(clips, durMap, A).timeline == [] <==>
      forall k :: 0 <= k < |clips| ==> clips[k].kind == Gif && Raw(clips[k].name, durMap) <= 0.0
    decreases |clips|
  {
    if clips != [] {
      var init, c := clips[..|clips| - 1], clips[|clips| - 1];
      var s := Pass1(init, durMap, A);
      var r := Step(s, c, durMap, A);
      assert Pass1(clips, durMap, A) == r;
      Pass1Empty(init, durMap, A);
      Pass1Budget(init, durMap, A);
      assert forall k :: 0 <= k < |init| ==> clips[k] == init[k];
      if s.timeline == [] {
        assert s.used == 0.0;
        assert r.timeline == [] <==> c.kind == Gif && Raw(c.name, durMap) <= 0.0;
      } else {
        assert r.timeline != [] by {
          assert |r.timeline| >= |s.timeline|;
        }
      }
    }
  }

  /** The final timeline is empty exactly when every entry is a gif whose probe gave no time:
      a still reached gets at least `min(1, A)`, a video at least some time. */
  lemma AllocationEmpty(clips: seq<Clip>, durMap: map<string, real>, A: real)
    requires A > 0.0
    ensures Allocation(clips, durMap, A) == [] <==>
      forall k :: 0 <= k < |clips| ==> clips[k].kind == Gif && Raw(clips[k].name, durMap) <= 0.0
  {
    var p := Pass1(clips, durMap, A);
    var first := p.timeline;
    var n := StillCount(first);
    var ps := PerStill(A, p.used, n);
    var second := Pass2(first, ps, A, 0.0);
    Pass1Empty(clips, durMap, A);
    if first != [] {
      Pass1Budget(clips, durMap, A);
      var e := Assigned(first[0], ps, A, 0.0);
      assert second[0] == e;
      if first[0].kind == Still {
        assert n >= 1;
        assert e.dur.value == Min(ps, A) > 0.0;
      }
      assert e.dur.Some? && e.dur.value > 0.0;
      assert KeepPositive(second) != [];
    }
  }

  /** The allocator of create_reel: Pass 1, `per_still`, Pass 2 updating the timeline in place,
      then the items with time. */
  method Allocate(clips: seq<Clip>, durMap: map<string, real>, A: real) returns (timeline: seq<Entry>)
    requires A > 0.0
    ensures timeline == Allocation(clips, durMap, A)
    ensures forall k :: 0 <= k < |timeline| ==> timeline[k].dur.Some? && timeline[k].dur.value > 0.0
    ensures IsSubsequence(ClipsOf(timeline), clips)
  {
    var first, used := FirstPass(clips, durMap, A);
    var perStill := PerStill(A, used, StillCount(first));
    var items := new Entry[|first|](k requires 0 <= k < |first| => first[k]);
    assert items[..] == first;
    SecondPass(items, perStill, A);
    timeline := KeepPositive(items[..]);
    AllocationShape(clips, durMap, A);
  }
}
