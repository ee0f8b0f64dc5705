/**
 * The file-extension tag of a model artifact path: the last piece of
 * `path.split('.')`, that is, the text after the last '.' or the whole path
 * when it has no '.'.
 */
module Extensions {

  /**
   * `s.split(sep)`: the separator-free pieces of `s` in order; there is
   * always at least one piece, and `n` separators give `n + 1` pieces.
   */
  function Split(s: string, sep: char): (parts: seq<string>)
    ensures |parts| >= 1
    ensures forall i :: 0 <= i < |parts| ==> sep !in parts[i]
    decreases |s|
  {
    if s == [] then [""]
    else
      var init := Split(s[..|s| - 1], sep);
      var c := s[|s| - 1];
      if c == sep then init + [""]
      else init[..|init| - 1] + [init[|init| - 1] + [c]]
  }

  /** `sep.join(parts)`. */
  function Join(parts: seq<string>, sep: char): string
    requires |parts| >= 1
  {
    if |parts| == 1 then parts[0]
    else Join(parts[..|parts| - 1], sep) + [sep] + parts[|parts| - 1]
  }

  /** Joining the pieces again gives back the string that was split. */
  lemma {:induction false} JoinSplit(s: string, sep: char)
    ensures Join(Split(s, sep), sep) == s
    decreases |s|
  {
    if s != [] {
      var prefix, c := s[..|s| - 1], s[|s| - 1];
      var init := Split(prefix, sep);
      JoinSplit(prefix, sep);
      assert prefix + [c] == s;
      if c == sep {
        assert (init + [""])[..|init|] == init;
      } else if |init| > 1 {
        var parts := init[..|init| - 1] + [init[|init| - 1] + [c]];
        assert parts[..|parts| - 1] == init[..|init| - 1];
        calc {
          Join(parts, sep);
          Join(init[..|init| - 1], sep) + [sep] + (init[|init| - 1] + [c]);
          Join(init, sep) + [c];
        }
      }
    }
  }

  /** A trailing separator opens a new, empty piece. */
  lemma SplitAfterSeparator(x: string, sep: char)
    ensures Split(x + [sep], sep) == Split(x, sep) + [""]
  {
    assert (x + [sep])[..|x|] == x;
  }

  /** A trailing non-separator extends the last piece. */
  lemma SplitAfterOther(x: string, c: char, sep: char)
    requires c != sep
    ensures Split(x + [c], sep) == Extend(Split(x, sep), [c])
  {
    assert (x + [c])[..|x|] == x;
  }

  /** `parts` with `y` appended to its last piece. */
  function Extend(parts: seq<string>, y: string): (r: seq<string>)
    requires |parts| >= 1
    ensures |r| == |parts| && r[..|r| - 1] == parts[..|parts| - 1]
    ensures r[|r| - 1] == parts[|parts| - 1] + y
  {
    parts[..|parts| - 1] + [parts[|parts| - 1] + y]
  }

  /** Extending the last piece twice is extending it once by both texts. */
  lemma ExtendTwice(parts: seq<string>, y1: string, y2: string)
    requires |parts| >= 1
    ensures Extend(Extend(parts, y1), y2) == Extend(parts, y1 + y2)
  {
    var a := parts[|parts| - 1];
    assert (a + y1) + y2 == a + (y1 + y2);
  }

  /** Appending separator-free text extends the last piece and nothing else. */
  lemma {:induction false} SplitAppend(x: string, y: string, sep: char)
    requires sep !in y
    ensures Split(x + y, sep) == Extend(Split(x, sep), y)
    decreases |y|
  {
    if y == [] {
      var px := Split(x, sep);
      assert x + y == x;
      assert px[|px| - 1] + y == px[|px| - 1];
      assert px[..|px| - 1] + [px[|px| - 1]] == px;
    } else {
      var y', c := y[..|y| - 1], y[|y| - 1];
      assert sep !in y' by {
        forall k | 0 <= k < |y'| ensures y'[k] != sep { assert y'[k] == y[k]; }
      }
      calc {
        Split(x + y, sep);
        { assert x + y == (x + y') + [c]; }
        Split((x + y') + [c], sep);
        { SplitAfterOther(x + y', c, sep); }
        Extend(Split(x + y', sep), [c]);
        { SplitAppend(x, y', sep); }
        Extend(Extend(Split(x, sep), y'), [c]);
        { ExtendTwice(Split(x, sep), y', [c]); assert y' + [c] == y; }
        Extend(Split(x, sep), y);
      }
    }
  }

  /** Splitting a join of separator-free pieces gives back the pieces. */
  lemma {:induction false} SplitJoin(parts: seq<string>, sep: char)
    requires |parts| >= 1
    requires forall i :: 0 <= i < |parts| ==> sep !in parts[i]
    ensures Split(Join(parts, sep), sep) == parts
    decreases |parts|
  {
    var last := parts[|parts| - 1];
    if |parts| == 1 {
      calc {
        Split(Join(parts, sep), sep);
        { assert [] + last == last; }
        Split([] + last, sep);
        { SplitAppend([], last, sep); }
        Extend([""], last);
        { assert "" + last == last; }
        [last];
        parts;
      }
    } else {
      var init := parts[..|parts| - 1];
      assert forall i :: 0 <= i < |init| ==> sep !in init[i] by {
        forall i | 0 <= i < |init| ensures sep !in init[i] { assert init[i] == parts[i]; }
      }
      calc {
        Split(Join(parts, sep), sep);
        Split((Join(init, sep) + [sep]) + last, sep);
        { SplitAppend(Join(init, sep) + [sep], last, sep); }
        Extend(Split(Join(init, sep) + [sep], sep), last);
        { SplitAfterSeparator(Join(init, sep), sep); }
        Extend(Split(Join(init, sep), sep) + [""], last);
        { SplitJoin(init, sep); }
        Extend(init + [""], last);
        { assert (init + [""])[..|init|] == init; assert "" + last == last; }
        init + [last];
        parts;
      }
    }
  }

  /**
   * `path.split('.')[-1]`: the longest suffix of `path` without a '.'; it is
   * preceded by a '.' unless it is the whole path.
   */
  function Extension(path: string): (ext: string)
    ensures '.' !in ext
    ensures |ext| <= |path| && path[|path| - |ext|..] == ext
    ensures |ext| < |path| ==> path[|path| - |ext| - 1] == '.'
  {
    var parts := Split(path, '.');
    JoinSplit(path, '.');
    LastPieceIsSuffix(parts, '.');
    parts[|parts| - 1]
  }

  /** The last piece closes the joined string, after a separator if there are several. */
  lemma LastPieceIsSuffix(parts: seq<string>, sep: char)
    requires |parts| >= 1
    ensures var s, last := Join(parts, sep), parts[|parts| - 1];
      |last| <= |s| && s[|s| - |last|..] == last &&
      (|parts| > 1 ==> |last| < |s| && s[|s| - |last| - 1] == sep) &&
      (|parts| == 1 ==> s == last)
  {
  }

  /** A path without any '.' is its own extension. */
  lemma DotlessPathIsItsOwnExtension(path: string)
    requires '.' !in path
    ensures Extension(path) == path
  {
    assert path[0..] == path;
  }

  /** Whatever comes before the last '.', the extension is the text after it. */
  lemma ExtensionAfterLastDot(stem: string, ext: string)
    requires '.' !in ext
    ensures Extension(stem + "." + ext) == ext
  {
    var path := stem + "." + ext;
    var e := Extension(path);
    assert path[|path| - |ext|..] == ext;
    assert path[|path| - |ext| - 1] == '.';
  }

  /** A dot-free suffix preceded by a dot, or the whole dot-free string, is the extension. */
  lemma ExtensionUnique(path: string, ext: string)
    requires '.' !in ext
    requires |ext| <= |path| && path[|path| - |ext|..] == ext
    requires |ext| < |path| ==> path[|path| - |ext| - 1] == '.'
    ensures Extension(path) == ext
  {
  }
}
