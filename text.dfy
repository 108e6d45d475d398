/**
  Python's `str.split(sep)` with an explicit one-character separator, and its
  inverse `sep.join(parts)`.
 */
module Text {

  /**
    The pieces of `s` between occurrences of `sep`: there is always at least
    one piece, and no piece contains the separator.
   */
  function Split(s: string, sep: char): (parts: seq<string>)
    ensures |parts| >= 1
    ensures forall k :: 0 <= k < |parts| ==> sep !in parts[k]
    decreases |s|
  {
    if s == [] then [""]
    else
      var rest := Split(s[1..], sep);
      if s[0] == sep then [""] + rest
      else [[s[0]] + rest[0]] + rest[1..]
  }

  function Join(parts: seq<string>, sep: char): string
    requires |parts| >= 1
  {
    if |parts| == 1 then parts[0] else parts[0] + [sep] + Join(parts[1..], sep)
  }

  /** Joining the pieces with the separator gives back the string. */
  lemma {:induction false} JoinSplit(s: string, sep: char)
    ensures Join(Split(s, sep), sep) == s
  {
    if s != [] {
      var rest := Split(s[1..], sep);
      JoinSplit(s[1..], sep);
      if s[0] != sep {
        var parts := Split(s, sep);
        assert parts[1..] == rest[1..];
        if |rest| > 1 {
          assert Join(rest, sep) == rest[0] + [sep] + Join(rest[1..], sep);
        }
      }
    }
  }

  /** A string without the separator is a single piece. */
  lemma {:induction false} SplitWithoutSep(s: string, sep: char)
    requires sep !in s
    ensures Split(s, sep) == [s]
  {
    if s != [] {
      assert s[0] in s && forall c :: c in s[1..] ==> c in s;
      SplitWithoutSep(s[1..], sep);
      assert [s[0]] + s[1..] == s;
    }
  }

  /** Splitting `a sep b` where `a` has no separator peels off `a` as the first piece. */
  lemma {:induction false} SplitAtFirstSep(a: string, b: string, sep: char)
    requires sep !in a
    ensures Split(a + [sep] + b, sep) == [a] + Split(b, sep)
  {
    if a == [] {
      assert ([sep] + b)[1..] == b;
    } else {
      assert (a + [sep] + b)[1..] == a[1..] + [sep] + b;
      SplitAtFirstSep(a[1..], b, sep);
      assert [a[0]] + a[1..] == a;
    }
  }

  /** Pieces without the separator are recovered by splitting their join. */
  lemma {:induction false} SplitJoin(parts: seq<string>, sep: char)
    requires |parts| >= 1
    requires forall k :: 0 <= k < |parts| ==> sep !in parts[k]
    ensures Split(Join(parts, sep), sep) == parts
  {
    if |parts| == 1 {
      SplitWithoutSep(parts[0], sep);
    } else {
      SplitJoin(parts[1..], sep);
      SplitAtFirstSep(parts[0], Join(parts[1..], sep), sep);
    }
  }

  /**
    `s.split(sep)[0]` is the prefix of `s` before the first separator: the
    whole of `s` when there is none.
   */
  lemma {:induction false} SplitHead(s: string, sep: char)
    ensures Split(s, sep)[0] <= s
    ensures |Split(s, sep)[0]| < |s| ==> s[|Split(s, sep)[0]|] == sep
    ensures sep !in s ==> Split(s, sep)[0] == s
    decreases |s|
  {
    if s != [] && s[0] != sep {
      SplitHead(s[1..], sep);
    }
  }

  /**
    `s.split(sep)[-1]` is the suffix of `s` after the last separator: the
    whole of `s` when there is none.
   */
  lemma {:induction false} SplitLast(s: string, sep: char)
    ensures var parts := Split(s, sep); var t := parts[|parts| - 1];
      && |t| <= |s| && s[|s| - |t|..] == t
      && (|parts| == 1 ==> t == s)
      && (|parts| > 1 ==> |t| < |s| && s[|s| - |t| - 1] == sep)
      && (sep !in s ==> t == s)
    decreases |s|
  {
    if s != [] {
      SplitLast(s[1..], sep);
      var rest := Split(s[1..], sep);
      var t := rest[|rest| - 1];
      var parts := Split(s, sep);
      assert |parts| == if s[0] == sep then |rest| + 1 else |rest|;
      assert parts[|parts| - 1] == if s[0] != sep && |rest| == 1 then [s[0]] + t else t;
      assert s[1..][|s| - 1 - |t|..] == s[|s| - |t|..];
      if s[0] != sep && |rest| == 1 {
        assert [s[0]] + s[1..] == s;
      } else if |t| < |s| - 1 {
        assert s[1..][|s| - 1 - |t| - 1] == s[|s| - |t| - 1];
      }
    }
  }
}
