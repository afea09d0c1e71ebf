/** String helpers: ASCII case folding, prefix/suffix/substring tests, and
    the '/'-joined text of a path as Node's `path.join` prints it. */
module Text {

  /** ASCII lower-casing. JavaScript's `/i` flag never maps a non-ASCII
      character onto an ASCII letter, so for the ASCII letters of a pattern
      this is exactly the case folding the regular expression applies. */
  function LowerAscii(c: char): (r: char)
    ensures 'A' <= c <= 'Z' ==> r as int == c as int + 32
    ensures !('A' <= c <= 'Z') ==> r == c
  {
    if 'A' <= c <= 'Z' then (c as int + 32) as char else c
  }

  predicate StartsWith(s: string, prefix: string)
  {
    |prefix| <= |s| && s[..|prefix|] == prefix
  }

  predicate EndsWith(s: string, suffix: string)
  {
    |suffix| <= |s| && s[|s| - |suffix|..] == suffix
  }

  /** `s` ends with `suffix` up to ASCII case; `suffix` is written in lower case. */
  predicate EndsWithIgnoringCase(s: string, suffix: string)
  {
    && |suffix| <= |s|
    && forall i :: 0 <= i < |suffix| ==> LowerAscii(s[|s| - |suffix| + i]) == suffix[i]
  }

  /** `u` occurs in `s` starting at index `k`. */
  predicate OccursAt(s: string, u: string, k: int)
  {
    0 <= k && k + |u| <= |s| && s[k..k + |u|] == u
  }

  /** JavaScript's `s.includes(u)`. */
  predicate Contains(s: string, u: string)
  {
    exists k | 0 <= k <= |s| - |u| :: OccursAt(s, u, k)
  }

  /** A text that begins with `u` contains it. */
  lemma StartsWithContains(s: string, u: string)
    ensures StartsWith(s, u) ==> Contains(s, u)
  {
    if StartsWith(s, u) {
      assert OccursAt(s, u, 0);
    }
  }

  /** The segments of a path joined by '/'. The empty path is "" (the
      current directory, which `path.join` drops), and an absolute path
      starts with an empty segment, so ["", "a"] prints as "/a". */
  function Render(p: seq<string>): string
  {
    if |p| == 0 then ""
    else if |p| == 1 then p[0]
    else Render(p[..|p| - 1]) + "/" + p[|p| - 1]
  }

  /** A name with no '/' in it: a single path segment. */
  predicate IsSegment(s: string)
  {
    forall i :: 0 <= i < |s| ==> s[i] != '/'
  }

  lemma RenderAppend(p: seq<string>, name: string)
    requires p != []
    ensures Render(p + [name]) == Render(p) + "/" + name
  {
    assert (p + [name])[..|p|] == p;
  }

  /** Below a non-empty directory, `join(dir, name).includes(join(dir, w))`
      holds exactly when `name` starts with `w`: the '/' that ends the
      directory part can only line up with the last '/' of the file's text. */
  lemma {:induction false} JoinedContainsIffStartsWith(p: seq<string>, name: string, w: string)
    requires p != []
    requires IsSegment(name)
    ensures Contains(Render(p + [name]), Render(p + [w])) <==> StartsWith(name, w)
  {
    RenderAppend(p, name);
    RenderAppend(p, w);
    var d := Render(p);
    var s := d + "/" + name;
    var u := d + "/" + w;
    if StartsWith(name, w) {
      assert s[..|u|] == u;
      assert OccursAt(s, u, 0);
    }
    if Contains(s, u) {
      var k :| 0 <= k <= |s| - |u| && OccursAt(s, u, k);
      assert u[|d|] == '/';
      assert s[k + |d|] == '/';
      assert k == 0;
      assert name[..|w|] == s[|d| + 1..|u|] == u[|d| + 1..] == w;
    }
  }

  /** `s` equals the lower-case text `t` once its ASCII letters are
      lower-cased. */
  predicate EqualsIgnoringCase(s: string, t: string)
  {
    |s| == |t| && forall i :: 0 <= i < |s| ==> LowerAscii(s[i]) == t[i]
  }

  /** A case-insensitive suffix test that looks past a '/' can only see the
      last segment: a suffix with no '/' in it ends `x + "/" + name` exactly
      when it ends `name`. */
  lemma JoinedEndsWithIgnoringCase(x: string, name: string, suffix: string)
    requires IsSegment(name) && IsSegment(suffix)
    ensures EndsWithIgnoringCase(x + "/" + name, suffix) <==> EndsWithIgnoringCase(name, suffix)
  {
    var s := x + "/" + name;
    if |suffix| <= |name| {
      assert s[|x| + 1..] == name;
    } else if |suffix| <= |s| {
      var i0 := |suffix| - |name| - 1;
      assert s[|s| - |suffix| + i0] == '/';
      assert LowerAscii(s[|s| - |suffix| + i0]) != suffix[i0];
    }
  }

  /** The same for the exact suffix test. */
  lemma JoinedEndsWith(x: string, name: string, suffix: string)
    requires IsSegment(name) && IsSegment(suffix)
    ensures EndsWith(x + "/" + name, suffix) <==> EndsWith(name, suffix)
  {
    var s := x + "/" + name;
    if |suffix| <= |name| {
      assert s[|s| - |suffix|..] == name[|name| - |suffix|..];
    } else if |suffix| <= |s| {
      var i0 := |suffix| - |name| - 1;
      assert s[|s| - |suffix|..][i0] == '/';
    }
  }
}
