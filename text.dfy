/** The few Python string operations the reel builder relies on, on `string` = `seq<char>`. */
module Text {
  import opened Wrappers

  /** Python's str.isspace for one character: the characters str.strip() removes by default. */
  predicate IsSpace(c: char) {
    var n := c as int;
    || (0x09 <= n <= 0x0D) || (0x1C <= n <= 0x20) || n == 0x85 || n == 0xA0 || n == 0x1680
    || (0x2000 <= n <= 0x200A) || n == 0x2028 || n == 0x2029 || n == 0x202F || n == 0x205F
    || n == 0x3000
  }

  /** The characters a strip removes: Python's default (whitespace) or the one character passed to it. */
  datatype Strippable = Whitespace | Exactly(c: char)

  predicate Drops(cls: Strippable, c: char) {
    match cls
    case Whitespace => IsSpace(c)
    case Exactly(x) => c == x
  }

  /** Leading characters of `s` that satisfy `drop`, removed (Python's lstrip). */
  function DropFront(s: string, drop: Strippable): (r: string)
    ensures |r| <= |s|
    ensures r == [] || !Drops(drop, r[0])
    decreases |s|
  {
    if s != [] && Drops(drop, s[0]) then DropFront(s[1..], drop) else s
  }

  /** Trailing characters of `s` that satisfy `drop`, removed (Python's rstrip). */
  function DropBack(s: string, drop: Strippable): (r: string)
    ensures |r| <= |s|
    ensures r == [] || !Drops(drop, r[|r| - 1])
    decreases |s|
  {
    if s != [] && Drops(drop, s[|s| - 1]) then DropBack(s[..|s| - 1], drop) else s
  }

  /** Rstrip keeps a prefix. */
  lemma {:induction false} DropBackIsPrefix(s: string, drop: Strippable)
    ensures DropBack(s, drop) == s[..|DropBack(s, drop)|]
    decreases |s|
  {
    if s != [] && Drops(drop, s[|s| - 1]) {
      DropBackIsPrefix(s[..|s| - 1], drop);
    }
  }

  /** Python's strip: both ends, the front first. */
  function StripWhere(s: string, drop: Strippable): string {
    DropBack(DropFront(s, drop), drop)
  }

  /** Python's `s.strip()`. */
  function Strip(s: string): string {
    StripWhere(s, Whitespace)
  }

  /** A string that begins and ends with characters `drop` keeps is its own strip. */
  lemma StripUnguarded(s: string, drop: Strippable)
    requires s == [] || (!Drops(drop, s[0]) && !Drops(drop, s[|s| - 1]))
    ensures StripWhere(s, drop) == s
  {
  }

  /** Stripping twice strips no more than stripping once. */
  lemma {:induction false} StripIdempotent(s: string, drop: Strippable)
    ensures StripWhere(StripWhere(s, drop), drop) == StripWhere(s, drop)
  {
    var m := DropFront(s, drop);
    var r := DropBack(m, drop);
    DropBackIsPrefix(m, drop);
    if r != [] {
      assert r[0] == m[0];
    }
    StripUnguarded(r, drop);
  }

  /** A string made of dropped characters only strips to the empty string. */
  lemma {:induction false} StripAllDropped(s: string, drop: Strippable)
    requires forall k :: 0 <= k < |s| ==> Drops(drop, s[k])
    ensures StripWhere(s, drop) == []
    decreases |s|
  {
    if s != [] {
      StripAllDropped(s[1..], drop);
    }
  }

  /** Strip keeps a first character it does not drop. */
  lemma {:induction false} DropBackKeepsFirst(s: string, drop: Strippable)
    requires s != [] && !Drops(drop, s[0])
    ensures DropBack(s, drop) != [] && DropBack(s, drop)[0] == s[0]
    decreases |s|
  {
    if |s| > 1 && Drops(drop, s[|s| - 1]) {
      DropBackKeepsFirst(s[..|s| - 1], drop);
    }
  }

  /** Dropped characters around a string with guarded ends are exactly what strip removes. */
  lemma {:induction false} StripSurrounded(a: string, m: string, b: string, drop: Strippable)
    requires forall k :: 0 <= k < |a| ==> Drops(drop, a[k])
    requires forall k :: 0 <= k < |b| ==> Drops(drop, b[k])
    requires m != [] && !Drops(drop, m[0]) && !Drops(drop, m[|m| - 1])
    ensures StripWhere(a + m + b, drop) == m
  {
    DropFrontPrefix(a, m + b, drop);
    assert a + m + b == a + (m + b);
    DropBackSuffix(m, b, drop);
  }

  lemma {:induction false} DropFrontPrefix(a: string, rest: string, drop: Strippable)
    requires forall k :: 0 <= k < |a| ==> Drops(drop, a[k])
    requires rest != [] && !Drops(drop, rest[0])
    ensures DropFront(a + rest, drop) == rest
    decreases |a|
  {
    if a == [] {
      assert a + rest == rest;
    } else {
      assert (a + rest)[1..] == a[1..] + rest;
      DropFrontPrefix(a[1..], rest, drop);
    }
  }

  lemma {:induction false} DropBackSuffix(m: string, b: string, drop: Strippable)
    requires forall k :: 0 <= k < |b| ==> Drops(drop, b[k])
    requires m != [] && !Drops(drop, m[|m| - 1])
    ensures DropBack(m + b, drop) == m
    decreases |b|
  {
    if b == [] {
      assert m + b == m;
    } else {
      assert (m + b)[..|m + b| - 1] == m + b[..|b| - 1];
      DropBackSuffix(m, b[..|b| - 1], drop);
    }
  }

  /** Python's `s.startswith(p)`. */
  predicate StartsWith(s: string, p: string) {
    |p| <= |s| && s[..|p|] == p
  }

  /** `sep` occurs in `s` at index `k`. */
  predicate OccursAt(s: string, sep: string, k: int) {
    0 <= k && k + |sep| <= |s| && s[k..k + |sep|] == sep
  }

  /** Python's `s.find(sep, i)`: the first index at or after `i` where `sep` occurs. */
  function FindFrom(s: string, sep: string, i: nat): (r: Option<nat>)
    requires i <= |s|
    ensures r.Some? ==> i <= r.value && OccursAt(s, sep, r.value)
    ensures r.Some? ==> forall k :: i <= k < r.value ==> !OccursAt(s, sep, k)
    ensures r.None? ==> forall k :: i <= k ==> !OccursAt(s, sep, k)
    decreases |s| - i
  {
    if i + |sep| > |s| then None
    else if s[i..i + |sep|] == sep then Some(i)
    else FindFrom(s, sep, i + 1)
  }

  /** Python's `s.split(sep, 1)[1]`: what follows the first occurrence of `sep`. */
  function AfterFirst(s: string, sep: string): (r: string)
    requires FindFrom(s, sep, 0).Some?
    ensures |r| <= |s|
  {
    s[FindFrom(s, sep, 0).value + |sep|..]
  }

  /** Python's `s.rfind(c)`: the last index holding `c`, or -1. */
  function LastIndexOf(s: string, c: char): (r: int)
    ensures -1 <= r < |s|
    ensures r >= 0 ==> s[r] == c
    ensures forall k :: r < k < |s| ==> s[k] != c
    decreases |s|
  {
    if s == [] then -1
    else if s[|s| - 1] == c then |s| - 1
    else LastIndexOf(s[..|s| - 1], c)
  }

  /** Where `c` last occurs in `s + t`: in `t` when it occurs there, otherwise where it last occurs in `s`. */
  lemma {:induction false} LastIndexOfAppend(s: string, t: string, c: char)
    ensures LastIndexOf(s + t, c) == if c in t then |s| + LastIndexOf(t, c) else LastIndexOf(s, c)
    decreases |t|
  {
    if t == [] {
      assert s + t == s;
    } else if t[|t| - 1] == c {
    } else {
      var t' := t[..|t| - 1];
      assert (s + t)[..|s + t| - 1] == s + t';
      assert c in t <==> c in t' by {
        assert t == t' + [t[|t| - 1]];
      }
      LastIndexOfAppend(s, t', c);
    }
  }

  /** ASCII case folding of one character. */
  function LowerChar(c: char): char {
    if 'A' <= c <= 'Z' then (c as int - 'A' as int + 'a' as int) as char else c
  }

  /** A lower-cased character is no ASCII capital. */
  lemma LowerCharNotUpper(c: char)
    ensures !('A' <= LowerChar(c) <= 'Z')
  {
    if 'A' <= c <= 'Z' {
      assert LowerChar(c) as int == c as int + 32;
    }
  }

  /** Python's `s.lower()`, on ASCII letters. */
  function Lower(s: string): (r: string)
    ensures |r| == |s|
    ensures forall k :: 0 <= k < |s| ==> r[k] == LowerChar(s[k])
  {
    seq(|s|, k requires 0 <= k < |s| => LowerChar(s[k]))
  }
}
