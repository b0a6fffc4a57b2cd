/**
 * The JavaScript string operations the file helpers rely on: `toLowerCase`
 * (restricted to ASCII), `endsWith`, `split` on a one-character separator,
 * and the position of the last occurrence of a character.
 */
module Strings {
  import opened Wrappers

  /** ASCII lower-casing of one character; every other character is kept. */
  function LowerChar(c: char): (d: char)
    ensures 'A' <= c <= 'Z' ==> 'a' <= d <= 'z' && d as int == c as int + 32
    ensures !('A' <= c <= 'Z') ==> d == c
  {
    if 'A' <= c <= 'Z' then (c as int + 32) as char else c
  }

  function Lower(s: string): (r: string)
    ensures |r| == |s|
    ensures forall i :: 0 <= i < |s| ==> r[i] == LowerChar(s[i])
  {
    seq(|s|, i requires 0 <= i < |s| => LowerChar(s[i]))
  }

  /** Lower-casing commutes with slicing. */
  lemma LowerSlice(s: string, i: nat, j: nat)
    requires i <= j <= |s|
    ensures Lower(s[i..j]) == Lower(s)[i..j]
  {
  }

  /** Lower-casing never creates or removes a dot. */
  lemma LowerKeepsDots(s: string)
    ensures forall i :: 0 <= i < |s| ==> (Lower(s)[i] == '.' <==> s[i] == '.')
  {
  }

  /** JavaScript `s.endsWith(suffix)`: some tail of `s` is `suffix`. */
  function EndsWith(s: string, suffix: string): (b: bool)
    ensures b <==> exists k :: 0 <= k <= |s| && s[k..] == suffix
  {
    |suffix| <= |s| && s[|s| - |suffix|..] == suffix
  }

  /** JavaScript `s.lastIndexOf(c)`, with `None` for -1. */
  function LastIndexOf(s: string, c: char): (r: Option<nat>)
    ensures r.None? ==> forall i :: 0 <= i < |s| ==> s[i] != c
    ensures r.Some? ==> r.value < |s| && s[r.value] == c
    ensures r.Some? ==> forall i :: r.value < i < |s| ==> s[i] != c
  {
    if s == [] then None
    else if s[|s| - 1] == c then Some(|s| - 1)
    else LastIndexOf(s[..|s| - 1], c)
  }

  /**
   * JavaScript `s.split(sep)` for a one-character separator: the pieces
   * between separators, in order; there is always at least one piece, and
   * the last piece is the text after the last separator (the whole string
   * when there is none).
   */
  function SplitOn(s: string, sep: char): (parts: seq<string>)
    ensures |parts| >= 1
  {
    if s == [] then [[]]
    else
      var init := SplitOn(s[..|s| - 1], sep);
      var c := s[|s| - 1];
      if c == sep then init + [[]]
      else init[..|init| - 1] + [init[|init| - 1] + [c]]
  }

  /**
   * The last piece of a split is the text after the last separator, or the
   * whole string when it holds no separator.
   */
  lemma {:induction false} LastPiece(s: string, sep: char)
    ensures var parts := SplitOn(s, sep); var last := parts[|parts| - 1];
      |last| <= |s| && last == s[|s| - |last|..] &&
      (|last| == |s| || s[|s| - |last| - 1] == sep)
  {
    if s != [] {
      var t, c := s[..|s| - 1], s[|s| - 1];
      LastPiece(t, sep);
      var init := SplitOn(t, sep);
      var l := init[|init| - 1];
      if c != sep {
        assert SplitOn(s, sep)[|SplitOn(s, sep)| - 1] == l + [c];
        assert s == t + [c];
        assert t[|t| - |l|..] + [c] == s[|s| - |l| - 1..];
      }
    }
  }

  /** No piece of a split contains the separator. */
  lemma {:induction false} SplitPiecesPlain(s: string, sep: char)
    ensures forall k :: 0 <= k < |SplitOn(s, sep)| ==> sep !in SplitOn(s, sep)[k]
  {
    if s != [] {
      var t, c := s[..|s| - 1], s[|s| - 1];
      assert s == t + [c];
      SplitPiecesPlain(t, sep);
      SplitSnoc(t, c, sep);
      var p := SplitOn(t, sep);
      if c != sep {
        assert sep !in p[|p| - 1] + [c];
      }
    }
  }

  /** JavaScript `parts.join(sep)`. */
  function JoinWith(parts: seq<string>, sep: char): string
    requires |parts| >= 1
  {
    if |parts| == 1 then parts[0]
    else JoinWith(parts[..|parts| - 1], sep) + [sep] + parts[|parts| - 1]
  }

  /** Splitting one more character: a separator opens a new piece, anything else extends the last one. */
  lemma SplitSnoc(t: string, c: char, sep: char)
    ensures var p := SplitOn(t, sep);
      SplitOn(t + [c], sep) == if c == sep then p + [[]] else p[..|p| - 1] + [p[|p| - 1] + [c]]
  {
    assert (t + [c])[..|t|] == t;
  }

  /** Joining the pieces of a split gives back the original string. */
  lemma {:induction false} JoinSplit(s: string, sep: char)
    ensures JoinWith(SplitOn(s, sep), sep) == s
  {
    if s != [] {
      var t, c := s[..|s| - 1], s[|s| - 1];
      JoinSplit(t, sep);
      JoinSnoc(SplitOn(t, sep), c, sep);
      assert t + [c] == s;
    }
  }

  /** Joining the pieces after one more character adds that character at the end. */
  lemma JoinSnoc(parts: seq<string>, c: char, sep: char)
    requires |parts| >= 1
    ensures var n := |parts|;
      JoinWith(if c == sep then parts + [[]] else parts[..n - 1] + [parts[n - 1] + [c]], sep) ==
      JoinWith(parts, sep) + [c]
  {
    var n := |parts|;
    if c == sep {
      assert (parts + [[]])[..n] == parts;
    } else if n > 1 {
      var q := parts[..n - 1] + [parts[n - 1] + [c]];
      assert q[..n - 1] == parts[..n - 1];
    }
  }

  /** Appending separator-free text only extends the last piece. */
  lemma {:induction false} SplitAppendPlain(a: string, b: string, sep: char)
    requires sep !in b
    ensures var p := SplitOn(a, sep);
      SplitOn(a + b, sep) == p[..|p| - 1] + [p[|p| - 1] + b]
    decreases |b|
  {
    if b == [] {
      var p := SplitOn(a, sep);
      assert a + b == a;
      assert p[|p| - 1] + b == p[|p| - 1];
      assert p[..|p| - 1] + [p[|p| - 1]] == p;
    } else {
      var b', c := b[..|b| - 1], b[|b| - 1];
      assert b == b' + [c];
      assert c != sep by { assert c in b; }
      assert (a + b)[..|a + b| - 1] == a + b' && (a + b)[|a + b| - 1] == c;
      SplitAppendPlain(a, b', sep);
      var p := SplitOn(a, sep);
      ExtendLast(p[..|p| - 1], p[|p| - 1], b', c);
    }
  }

  /** Extending the last piece by one more character. */
  lemma ExtendLast(init: seq<string>, last: string, b: string, c: char)
    ensures var q := init + [last + b];
      q[..|q| - 1] + [q[|q| - 1] + [c]] == init + [last + (b + [c])]
  {
    var q := init + [last + b];
    assert q[..|q| - 1] == init;
    assert (last + b) + [c] == last + (b + [c]);
  }

  /** Splitting a join of separator-free pieces gives back the pieces. */
  lemma {:induction false} SplitJoin(parts: seq<string>, sep: char)
    requires |parts| >= 1
    requires forall k :: 0 <= k < |parts| ==> sep !in parts[k]
    ensures SplitOn(JoinWith(parts, sep), sep) == parts
  {
    if |parts| == 1 {
      SplitAppendPlain([], parts[0], sep);
      assert [] + parts[0] == parts[0];
    } else {
      var init, last := parts[..|parts| - 1], parts[|parts| - 1];
      assert forall k :: 0 <= k < |init| ==> init[k] == parts[k];
      SplitJoin(init, sep);
      SplitJoinStep(init, last, sep);
      assert init + [last] == parts;
    }
  }

  /** One step of SplitJoin: a separator-free piece joined at the end is split off again. */
  lemma SplitJoinStep(init: seq<string>, last: string, sep: char)
    requires |init| >= 1
    requires SplitOn(JoinWith(init, sep), sep) == init
    requires sep !in last
    ensures SplitOn(JoinWith(init + [last], sep), sep) == init + [last]
  {
    assert (init + [last])[..|init|] == init;
    SplitSnoc(JoinWith(init, sep), sep, sep);
    SplitOpenPiece(JoinWith(init, sep) + [sep], last, sep, init);
  }

  /** Separator-free text after a separator becomes the whole last piece. */
  lemma SplitOpenPiece(x: string, last: string, sep: char, init: seq<string>)
    requires SplitOn(x, sep) == init + [[]]
    requires sep !in last
    ensures SplitOn(x + last, sep) == init + [last]
  {
    SplitAppendPlain(x, last, sep);
    assert (init + [[]])[..|init|] == init;
    assert [] + last == last;
  }
}
