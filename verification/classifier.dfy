/** The file classifier of index.js: which directory entries the walk
    leaves alone (line 41), which files count as images (lines 44 and 108),
    and the path check that follows (line 45). */
module Classifier {
  import opened Text
  import opened FileSystem

  /** Line 41: directories the walk never enters, at any depth. */
  predicate IsReservedName(n: Name)
  {
    n == "backup" || n == "temp"
  }

  /** The three extensions, lower-cased, without their dot. */
  predicate IsImageExtension(e: string)
  {
    EqualsIgnoringCase(e, "png") || EqualsIgnoringCase(e, "jpg") || EqualsIgnoringCase(e, "jpeg")
  }

  /** The regular expression `/\.(png|jpe?g)$/i` of lines 44 and 108: a dot
      followed by png, jpg or jpeg in any ASCII case, at the end of the text. */
  predicate MatchesImagePattern(s: string)
  {
    exists k | 0 <= k < |s| :: s[k] == '.' && IsImageExtension(s[k + 1..])
  }

  /** The extensions as a plain suffix test: the independent reading of the
      pattern. */
  predicate HasImageSuffix(s: string)
  {
    EndsWithIgnoringCase(s, ".png") || EndsWithIgnoringCase(s, ".jpg") || EndsWithIgnoringCase(s, ".jpeg")
  }

  /** The text `path.join` gives the file `p` of a run whose root folder is
      `root`. */
  function PathText(root: Path, p: Path): string
  {
    Render(root + p)
  }

  /** Line 45: `filePath.includes(path.join(directory, 'backup'))` or the
      same with 'temp', for the file `name` listed in the directory `dir`. */
  predicate SkippedByPathCheck(root: Path, dir: Path, name: Name)
  {
    var text := PathText(root, dir + [name]);
    Contains(text, PathText(root, dir + ["backup"])) || Contains(text, PathText(root, dir + ["temp"]))
  }

  /** A suffix made of a dot and an extension is a dot followed by that
      extension at the end. */
  lemma DotExtension(s: string, ext: string)
    ensures EndsWithIgnoringCase(s, "." + ext) <==>
      |ext| < |s| && s[|s| - |ext| - 1] == '.' && EqualsIgnoringCase(s[|s| - |ext|..], ext)
  {
    var suffix := "." + ext;
    if EndsWithIgnoringCase(s, suffix) {
      assert LowerAscii(s[|s| - |suffix|]) == suffix[0];
      forall i | 0 <= i < |ext|
        ensures LowerAscii(s[|s| - |ext|..][i]) == ext[i]
      {
        assert suffix[i + 1] == ext[i];
        assert LowerAscii(s[|s| - |suffix| + (i + 1)]) == suffix[i + 1];
      }
    }
    if |ext| < |s| && s[|s| - |ext| - 1] == '.' && EqualsIgnoringCase(s[|s| - |ext|..], ext) {
      forall i | 0 <= i < |suffix|
        ensures LowerAscii(s[|s| - |suffix| + i]) == suffix[i]
      {
        if i > 0 {
          assert LowerAscii(s[|s| - |ext|..][i - 1]) == ext[i - 1];
        }
      }
    }
  }

  /** The image pattern of lines 44 and 108 accepts exactly the texts that
      end in .png, .jpg or .jpeg, whatever the case of the letters. */
  lemma ImagePatternIsSuffix(s: string)
    ensures MatchesImagePattern(s) <==> HasImageSuffix(s)
  {
    if MatchesImagePattern(s) {
      var k :| 0 <= k < |s| && s[k] == '.' && IsImageExtension(s[k + 1..]);
      PatternAt(s, k);
    }
    if HasImageSuffix(s) {
      SuffixGivesPattern(s);
    }
  }

  lemma PatternAt(s: string, k: int)
    requires 0 <= k < |s| && s[k] == '.' && IsImageExtension(s[k + 1..])
    ensures HasImageSuffix(s)
  {
    DotAtEnd(s, k, "png");
    DotAtEnd(s, k, "jpg");
    DotAtEnd(s, k, "jpeg");
  }

  lemma DotAtEnd(s: string, k: int, ext: string)
    requires 0 <= k < |s| && s[k] == '.'
    ensures EqualsIgnoringCase(s[k + 1..], ext) ==> EndsWithIgnoringCase(s, "." + ext)
  {
    if EqualsIgnoringCase(s[k + 1..], ext) {
      assert s[k + 1..] == s[|s| - |ext|..];
      DotExtension(s, ext);
    }
  }

  lemma SuffixGivesPattern(s: string)
    requires HasImageSuffix(s)
    ensures MatchesImagePattern(s)
  {
    if EndsWithIgnoringCase(s, ".png") {
      assert "." + "png" == ".png";
      DotExtension(s, "png");
      assert s[|s| - 4] == '.' && IsImageExtension(s[|s| - 3..]);
    } else if EndsWithIgnoringCase(s, ".jpg") {
      assert "." + "jpg" == ".jpg";
      DotExtension(s, "jpg");
      assert s[|s| - 4] == '.' && IsImageExtension(s[|s| - 3..]);
    } else {
      assert "." + "jpeg" == ".jpeg";
      DotExtension(s, "jpeg");
      assert s[|s| - 5] == '.' && IsImageExtension(s[|s| - 4..]);
    }
  }

  /** The pattern is matched against the whole path text, but it only ever sees
      the file's own name. */
  lemma PatternSeesOnlyTheName(root: Path, dir: Path, name: Name)
    requires IsSegment(name)
    ensures MatchesImagePattern(PathText(root, dir + [name])) <==> MatchesImagePattern(name)
  {
    ImagePatternIsSuffix(PathText(root, dir + [name]));
    ImagePatternIsSuffix(name);
    SuffixSeesOnlyTheName(root, dir, name);
  }

  lemma SuffixSeesOnlyTheName(root: Path, dir: Path, name: Name)
    requires IsSegment(name)
    ensures HasImageSuffix(PathText(root, dir + [name])) <==> HasImageSuffix(name)
  {
    var d := root + dir;
    assert root + (dir + [name]) == d + [name];
    if d != [] {
      RenderAppend(d, name);
      JoinedEndsWithIgnoringCase(Render(d), name, ".png");
      JoinedEndsWithIgnoringCase(Render(d), name, ".jpg");
      JoinedEndsWithIgnoringCase(Render(d), name, ".jpeg");
    }
  }

  /** Below any non-empty directory text the path check of line 45 skips
      exactly the files whose own name begins with "backup" or "temp", such
      as `photos/backup.png` or `photos/temperature.jpg`. */
  lemma PathCheckIsNamePrefix(root: Path, dir: Path, name: Name)
    requires root + dir != []
    requires IsSegment(name)
    ensures SkippedByPathCheck(root, dir, name) <==> StartsWith(name, "backup") || StartsWith(name, "temp")
  {
    var d := root + dir;
    assert root + (dir + [name]) == d + [name];
    assert root + (dir + ["backup"]) == d + ["backup"];
    assert root + (dir + ["temp"]) == d + ["temp"];
    JoinedContainsIffStartsWith(d, name, "backup");
    JoinedContainsIffStartsWith(d, name, "temp");
  }

  /** When the root folder is "." the top-level directory text is empty
      (`path.join('.', x)` is `x`), and there the check skips every file
      whose name merely contains "backup" or "temp", such as `mybackup.png`. */
  lemma PathCheckAtDotRoot(name: Name)
    ensures SkippedByPathCheck([], [], name) <==> Contains(name, "backup") || Contains(name, "temp")
  {
    assert [] + ([] + [name]) == [name];
    assert [] + ([] + ["backup"]) == ["backup"];
    assert [] + ([] + ["temp"]) == ["temp"];
  }
}
