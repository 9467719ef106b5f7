/**
 * The few JavaScript string operations the worker bridge relies on:
 * `endsWith` and `split` with a one-character separator. `Join` is the
 * inverse of `Split` and serves as its reference definition.
 */
module JsStrings {

  /** `s.endsWith(suffix)` */
  predicate EndsWith(s: string, suffix: string)
  {
    |suffix| <= |s| && s[|s| - |suffix|..] == suffix
  }

  /**
   * `s.split(sep)` for a one-character separator: the pieces of `s` between
   * consecutive separators, left to right. As in JavaScript, the empty string
   * splits into one empty piece and a separator at either end yields an empty
   * piece there.
   */
  function Split(s: string, sep: char): (parts: seq<string>)
    ensures |parts| >= 1
    ensures forall i :: 0 <= i < |parts| ==> sep !in parts[i]
    decreases |s|
  {
    if |s| == 0 then [""]
    else
      var rest := Split(s[1..], sep);
      if s[0] == sep then [""] + rest
      else
        assert forall i :: 1 <= i < |rest| ==> sep !in rest[i];
        [[s[0]] + rest[0]] + rest[1..]
  }

  /** The pieces glued back together with `sep` between neighbours. */
  function Join(parts: seq<string>, sep: char): string
    requires |parts| >= 1
    decreases |parts|
  {
    if |parts| == 1 then parts[0] else parts[0] + [sep] + Join(parts[1..], sep)
  }

  /** No piece of `parts` contains the separator. */
  predicate SeparatorFree(parts: seq<string>, sep: char)
  {
    forall i :: 0 <= i < |parts| ==> sep !in parts[i]
  }

  /** `t` is the text of `s` before its first `sep`, or all of `s` when `s` has none. */
  ghost predicate IsFirstPiece(t: string, s: string, sep: char)
  {
    |t| <= |s| && t == s[..|t|] && sep !in t && (|t| < |s| ==> s[|t|] == sep)
  }

  /** `t` is the text of `s` after its last `sep`, or all of `s` when `s` has none. */
  ghost predicate IsLastPiece(t: string, s: string, sep: char)
  {
    |t| <= |s| && t == s[|s| - |t|..] && sep !in t && (|t| < |s| ==> s[|s| - |t| - 1] == sep)
  }

  /** Splitting then joining gives back the original string. */
  lemma {:induction false} JoinSplit(s: string, sep: char)
    ensures Join(Split(s, sep), sep) == s
    decreases |s|
  {
    if |s| > 0 {
      var rest := Split(s[1..], sep);
      JoinSplit(s[1..], sep);
      if s[0] == sep {
        assert ([""] + rest)[1..] == rest;
        assert s == [sep] + s[1..];
      } else if |rest| == 1 {
        assert s == [s[0]] + s[1..];
      } else {
        var parts := [[s[0]] + rest[0]] + rest[1..];
        assert parts[1..] == rest[1..];
        assert Join(rest, sep) == rest[0] + [sep] + Join(rest[1..], sep);
        assert s == [s[0]] + s[1..];
      }
    }
  }

  /** A separator-free string is a single piece. */
  lemma {:induction false} SplitSeparatorFree(a: string, sep: char)
    requires sep !in a
    ensures Split(a, sep) == [a]
    decreases |a|
  {
    if |a| > 0 {
      SplitSeparatorFree(a[1..], sep);
      assert a == [a[0]] + a[1..];
    }
  }

  /** A separator-free head followed by a separator splits off as one piece. */
  lemma {:induction false} SplitCons(a: string, t: string, sep: char)
    requires sep !in a
    ensures Split(a + [sep] + t, sep) == [a] + Split(t, sep)
    decreases |a|
  {
    var s := a + [sep] + t;
    if |a| == 0 {
      assert s[1..] == t;
    } else {
      assert s[1..] == a[1..] + [sep] + t;
      SplitCons(a[1..], t, sep);
      assert [a[0]] + a[1..] == a;
    }
  }

  /** Joining separator-free pieces then splitting gives back the pieces. */
  lemma {:induction false} SplitJoin(parts: seq<string>, sep: char)
    requires |parts| >= 1 && SeparatorFree(parts, sep)
    ensures Split(Join(parts, sep), sep) == parts
    decreases |parts|
  {
    if |parts| == 1 {
      SplitSeparatorFree(parts[0], sep);
    } else {
      SplitJoin(parts[1..], sep);
      SplitCons(parts[0], Join(parts[1..], sep), sep);
      assert [parts[0]] + parts[1..] == parts;
    }
  }

  /** Joining with one more piece at the end appends a separator and that piece. */
  lemma {:induction false} JoinSnoc(parts: seq<string>, x: string, sep: char)
    requires |parts| >= 1
    ensures Join(parts + [x], sep) == Join(parts, sep) + [sep] + x
    decreases |parts|
  {
    if |parts| > 1 {
      assert (parts + [x])[1..] == parts[1..] + [x];
      JoinSnoc(parts[1..], x, sep);
    }
  }

  /** At most one string is the first piece of `s`. */
  lemma FirstPieceUnique(t: string, u: string, s: string, sep: char)
    requires IsFirstPiece(t, s, sep) && IsFirstPiece(u, s, sep)
    ensures t == u
  {
  }

  /** At most one string is the last piece of `s`. */
  lemma LastPieceUnique(t: string, u: string, s: string, sep: char)
    requires IsLastPiece(t, s, sep) && IsLastPiece(u, s, sep)
    ensures t == u
  {
  }

  /** `s.split(sep)[0]` */
  function FirstPiece(s: string, sep: char): (t: string)
    ensures IsFirstPiece(t, s, sep)
  {
    var parts := Split(s, sep);
    JoinSplit(s, sep);
    if |parts| == 1 then parts[0]
    else
      assert s == parts[0] + ([sep] + Join(parts[1..], sep));
      parts[0]
  }

  /** `s.split(sep).slice(-1)[0]` */
  function LastPiece(s: string, sep: char): (t: string)
    ensures IsLastPiece(t, s, sep)
  {
    var parts := Split(s, sep);
    var n := |parts|;
    JoinSplit(s, sep);
    if n == 1 then parts[0]
    else
      assert parts == parts[..n - 1] + [parts[n - 1]];
      JoinSnoc(parts[..n - 1], parts[n - 1], sep);
      assert s == (Join(parts[..n - 1], sep) + [sep]) + parts[n - 1];
      parts[n - 1]
  }
}
