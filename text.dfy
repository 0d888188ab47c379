/**
 * The string primitives the dispatcher uses: PHP's `explode`, `strpos` for a
 * single character, `explode` with a limit of two, and `strtolower`. The
 * dispatcher never joins strings; `implode` is here as the inverse that the
 * round-trip laws of `explode` are stated against.
 */
module Text {
  import opened Wrappers

  /** `implode(sep, parts)`: the parts with `sep` between consecutive ones. */
  function Implode(sep: char, parts: seq<string>): string
  {
    if |parts| == 0 then ""
    else if |parts| == 1 then parts[0]
    else parts[0] + [sep] + Implode(sep, parts[1..])
  }

  /**
   * `explode(sep, s)` without a limit: the maximal runs of `s` free of `sep`
   * (what that means is ExplodeSegments).
   */
  function Explode(sep: char, s: string): (parts: seq<string>)
    ensures |parts| >= 1
    decreases |s|
  {
    if |s| == 0 then [""]
    else
      var rest := Explode(sep, s[1..]);
      if s[0] == sep then [""] + rest else [[s[0]] + rest[0]] + rest[1..]
  }

  /**
   * There is always at least one segment (`explode('@', '')` is `['']`),
   * there is more than one exactly when `sep` occurs, and no segment contains
   * `sep`.
   */
  lemma {:induction false} ExplodeSegments(sep: char, s: string)
    ensures |Explode(sep, s)| > 1 <==> sep in s
    ensures forall i :: 0 <= i < |Explode(sep, s)| ==> sep !in Explode(sep, s)[i]
    decreases |s|
  {
    if |s| > 0 {
      ExplodeSegments(sep, s[1..]);
      var rest := Explode(sep, s[1..]);
      assert s == [s[0]] + s[1..];
      if s[0] != sep {
        var parts := [[s[0]] + rest[0]] + rest[1..];
        assert Explode(sep, s) == parts;
        assert sep !in parts[0];
        assert forall i :: 1 <= i < |parts| ==> parts[i] == rest[i];
      } else {
        var parts := [""] + rest;
        assert Explode(sep, s) == parts;
        assert forall i :: 1 <= i < |parts| ==> parts[i] == rest[i - 1];
      }
    }
  }

  /** Joining the segments of `explode` gives back the exploded string. */
  lemma {:induction false} ImplodeExplode(sep: char, s: string)
    ensures Implode(sep, Explode(sep, s)) == s
    decreases |s|
  {
    if |s| > 0 {
      ImplodeExplode(sep, s[1..]);
      var rest := Explode(sep, s[1..]);
      if s[0] == sep {
        assert ([""] + rest)[1..] == rest;
      } else if |rest| > 1 {
        var parts := [[s[0]] + rest[0]] + rest[1..];
        assert parts[1..] == rest[1..];
        assert Implode(sep, rest) == rest[0] + [sep] + Implode(sep, rest[1..]);
        assert s == [s[0]] + s[1..];
      } else {
        assert s == [s[0]] + s[1..];
      }
    }
  }

  /** Exploding `a + sep + b`, where `a` is free of `sep`, splits off `a` first. */
  lemma {:induction false} ExplodeAppend(sep: char, a: string, b: string)
    requires sep !in a
    ensures Explode(sep, a + [sep] + b) == [a] + Explode(sep, b)
    decreases |a|
  {
    var s := a + [sep] + b;
    if |a| == 0 {
      assert s[1..] == b;
    } else {
      assert s[1..] == a[1..] + [sep] + b;
      ExplodeAppend(sep, a[1..], b);
      assert [a[0]] + a[1..] == a;
    }
  }

  /** A string free of `sep` explodes into itself alone. */
  lemma ExplodeFree(sep: char, a: string)
    requires sep !in a
    ensures Explode(sep, a) == [a]
  {
    ImplodeExplode(sep, a);
  }

  /** The first segment of `explode` is a prefix that ends at the end or at a separator. */
  lemma FirstSegmentPrefix(sep: char, b: string)
    ensures var m := |Explode(sep, b)[0]|;
      m <= |b| && b[..m] == Explode(sep, b)[0] && (m == |b| || b[m] == sep)
  {
    SplitFirstSpec(sep, b);
    if sep in b {
      var (c, d) := SplitFirst(sep, b).value;
      ExplodeAppend(sep, c, d);
      assert b == c + ([sep] + d);
    } else {
      ExplodeFree(sep, b);
      assert b[..|b|] == b;
    }
  }

  /**
   * The other direction of the round trip: segments free of `sep`, imploded
   * and exploded again, come back unchanged.
   */
  lemma {:induction false} ExplodeImplode(sep: char, parts: seq<string>)
    requires |parts| >= 1
    requires forall i :: 0 <= i < |parts| ==> sep !in parts[i]
    ensures Explode(sep, Implode(sep, parts)) == parts
    decreases |parts|
  {
    if |parts| == 1 {
      ExplodeFree(sep, parts[0]);
    } else {
      ExplodeImplode(sep, parts[1..]);
      ExplodeAppend(sep, parts[0], Implode(sep, parts[1..]));
      assert [parts[0]] + parts[1..] == parts;
    }
  }

  /** `strpos(s, c)` for a single character: the first position of `c`, if any. */
  function FirstIndex(c: char, s: string): (r: Option<nat>)
    ensures r.Some? ==> r.value < |s|
    decreases |s|
  {
    if |s| == 0 then None
    else if s[0] == c then Some(0)
    else
      match FirstIndex(c, s[1..])
      case None => None
      case Some(i) => Some(i + 1)
  }

  /** `None` exactly when `c` does not occur; otherwise a position of `c` with no `c` before it. */
  lemma {:induction false} FirstIndexSpec(c: char, s: string)
    ensures FirstIndex(c, s).None? <==> c !in s
    ensures FirstIndex(c, s).Some? ==>
      var i := FirstIndex(c, s).value; i < |s| && s[i] == c && c !in s[..i]
    decreases |s|
  {
    if |s| > 0 && s[0] != c {
      FirstIndexSpec(c, s[1..]);
      assert s == [s[0]] + s[1..];
      match FirstIndex(c, s[1..])
      case None =>
      case Some(i) =>
        assert s[..i + 1] == [s[0]] + s[1..][..i];
    }
  }

  /**
   * `explode(sep, s, 2)` when `sep` occurs: the text before its first
   * occurrence and everything after it; `None` when it does not occur.
   */
  function SplitFirst(sep: char, s: string): (r: Option<(string, string)>)
  {
    match FirstIndex(sep, s)
    case None => None
    case Some(i) => Some((s[..i], s[i + 1..]))
  }

  /** The split exists exactly when `sep` occurs, and then it is at a `sep` with none before it. */
  lemma SplitFirstSpec(sep: char, s: string)
    ensures SplitFirst(sep, s).None? <==> sep !in s
    ensures SplitFirst(sep, s).Some? ==>
      var (a, b) := SplitFirst(sep, s).value; sep !in a && s == a + [sep] + b
  {
    FirstIndexSpec(sep, s);
    if sep in s {
      var i := FirstIndex(sep, s).value;
      assert s == s[..i] + [sep] + s[i + 1..];
    }
  }

  /** The split is at the first separator: it is the only split whose head is free of `sep`. */
  lemma SplitFirstOf(sep: char, a: string, b: string)
    requires sep !in a
    ensures SplitFirst(sep, a + [sep] + b) == Some((a, b))
  {
    var s := a + [sep] + b;
    FirstIndexSpec(sep, s);
    var i := FirstIndex(sep, s).value;
    assert s[|a|] == sep;
    assert forall k :: 0 <= k < |a| ==> s[k] == a[k];
    assert s[..i] == a;
    assert s[i + 1..] == b;
  }

  predicate IsUpper(c: char) { 'A' <= c <= 'Z' }

  function LowerChar(c: char): char
  {
    if IsUpper(c) then (c as int + 32) as char else c
  }

  /**
   * `strtolower` (ASCII only, as PHP 8.2 and later define it): every upper-case
   * letter becomes its lower-case letter and every other character stays.
   */
  function Lower(s: string): (r: string)
    ensures |r| == |s|
  {
    seq(|s|, i requires 0 <= i < |s| => LowerChar(s[i]))
  }

  /** No upper-case letter is left; other characters are unchanged; upper-case ones move up by 32. */
  lemma LowerChars(s: string)
    ensures forall i :: 0 <= i < |s| ==> !IsUpper(Lower(s)[i])
    ensures forall i :: 0 <= i < |s| && !IsUpper(s[i]) ==> Lower(s)[i] == s[i]
    ensures forall i :: 0 <= i < |s| && IsUpper(s[i]) ==> Lower(s)[i] as int == s[i] as int + 32
  {
  }

  /** Lowering twice is lowering once. */
  lemma LowerIdempotent(s: string)
    ensures Lower(Lower(s)) == Lower(s)
  {
  }
}
