/** Go's `strings.Split` for a one-character separator, and the last segment it yields. */
module Strings {

  /** `strings.Split(s, [sep])`: the maximal runs of `s` between separators, in order.
      An empty `s` gives one empty segment, so the result is never empty. */
  function Split(s: string, sep: char): (parts: seq<string>)
    ensures |parts| >= 1
    decreases |s|
  {
    if |s| == 0 then [""]
    else
      var init := Split(s[..|s| - 1], sep);
      if s[|s| - 1] == sep then init + [""]
      else init[..|init| - 1] + [init[|init| - 1] + [s[|s| - 1]]]
  }

  /** `strings.Join(parts, [sep])`. */
  function Join(parts: seq<string>, sep: char): (s: string)
    requires |parts| >= 1
    decreases |parts|
  {
    if |parts| == 1 then parts[0]
    else Join(parts[..|parts| - 1], sep) + [sep] + parts[|parts| - 1]
  }

  /** Joining the segments again gives back `s`: splitting loses nothing. */
  lemma {:induction false} SplitJoin(s: string, sep: char)
    ensures Join(Split(s, sep), sep) == s
    decreases |s|
  {
    if |s| > 0 {
      var t := s[..|s| - 1];
      var c := s[|s| - 1];
      var init := Split(t, sep);
      SplitJoin(t, sep);
      assert s == t + [c];
      if c == sep {
        JoinAppendEmpty(init, sep);
      } else {
        JoinExtendLast(init, sep, c);
      }
    }
  }

  lemma JoinAppendEmpty(parts: seq<string>, sep: char)
    requires |parts| >= 1
    ensures Join(parts + [""], sep) == Join(parts, sep) + [sep]
  {
    var longer := parts + [""];
    assert longer[..|longer| - 1] == parts;
  }

  lemma JoinExtendLast(parts: seq<string>, sep: char, c: char)
    requires |parts| >= 1
    ensures Join(parts[..|parts| - 1] + [parts[|parts| - 1] + [c]], sep) == Join(parts, sep) + [c]
  {
    var front := parts[..|parts| - 1];
    var last := parts[|parts| - 1];
    var longer := front + [last + [c]];
    assert longer[..|longer| - 1] == front;
    if |parts| > 1 {
      assert Join(longer, sep) == Join(front, sep) + [sep] + (last + [c]);
    }
  }

  /** No segment contains the separator. */
  lemma {:induction false} SplitHasNoSep(s: string, sep: char)
    ensures forall k :: 0 <= k < |Split(s, sep)| ==> sep !in Split(s, sep)[k]
    decreases |s|
  {
    if |s| > 0 {
      var t := s[..|s| - 1];
      var c := s[|s| - 1];
      var init := Split(t, sep);
      SplitHasNoSep(t, sep);
      if c != sep {
        var parts := init[..|init| - 1] + [init[|init| - 1] + [c]];
        forall k | 0 <= k < |parts|
          ensures sep !in parts[k]
        {
          if k < |parts| - 1 {
            assert parts[k] == init[k];
          }
        }
      }
    }
  }

  /** The last element of `strings.Split(s, [sep])`. */
  function LastSegment(s: string, sep: char): (last: string)
  {
    var parts := Split(s, sep);
    parts[|parts| - 1]
  }

  /** Whatever precedes the last separator does not matter to the last segment. */
  lemma {:induction false} LastSegmentAfterSep(p: string, sep: char, q: string)
    requires sep !in q
    ensures LastSegment(p + [sep] + q, sep) == q
    decreases |q|
  {
    var s := p + [sep] + q;
    if |q| == 0 {
      assert s == p + [sep];
      assert s[..|s| - 1] == p;
    } else {
      var q' := q[..|q| - 1];
      assert s[..|s| - 1] == p + [sep] + q';
      LastSegmentAfterSep(p, sep, q');
    }
  }

  /** The last segment is the suffix of `s` after its last separator: it is a suffix, it holds
      no separator, and it is either all of `s` or preceded by a separator. Two corollaries:
      with no separator it is `s` itself, and it is empty when `s` is empty or ends with one. */
  lemma {:induction false} LastSegmentIsSuffixAfterLastSep(s: string, sep: char)
    ensures |LastSegment(s, sep)| <= |s|
    ensures s[|s| - |LastSegment(s, sep)|..] == LastSegment(s, sep)
    ensures sep !in LastSegment(s, sep)
    ensures |LastSegment(s, sep)| < |s| ==> s[|s| - |LastSegment(s, sep)| - 1] == sep
    ensures sep !in s ==> LastSegment(s, sep) == s
    ensures (|s| == 0 || s[|s| - 1] == sep) ==> LastSegment(s, sep) == ""
    decreases |s|
  {
    if |s| > 0 {
      var t := s[..|s| - 1];
      var c := s[|s| - 1];
      LastSegmentIsSuffixAfterLastSep(t, sep);
      if c != sep {
        var init := Split(t, sep);
        var seg := LastSegment(s, sep);
        assert seg == LastSegment(t, sep) + [c];
        assert s[|s| - |seg|..] == s[|t| - |LastSegment(t, sep)|..|t|] + [c];
        if sep !in s {
          assert sep !in t;
        }
      }
    }
  }
}
