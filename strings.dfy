/**
 * Python's `str.join` and `str.split` (one-character separator), with character-scan
 * reference definitions of what the common split-and-index idioms compute.
 */
module Strings {

  /** `sep.join(parts)`. */
  function Join(sep: string, parts: seq<string>): string
  {
    if |parts| == 0 then ""
    else if |parts| == 1 then parts[0]
    else parts[0] + sep + Join(sep, parts[1..])
  }

  /** `s.split(c)`: always at least one part, and no part contains `c`. */
  function Split(s: string, c: char): (parts: seq<string>)
    ensures |parts| >= 1
    ensures forall k :: 0 <= k < |parts| ==> c !in parts[k]
  {
    if |s| == 0 then [""]
    else if s[0] == c then [""] + Split(s[1..], c)
    else
      var rest := Split(s[1..], c);
      [[s[0]] + rest[0]] + rest[1..]
  }

  /** `parts[-1]`. */
  function Last(parts: seq<string>): string
    requires |parts| >= 1
  {
    parts[|parts| - 1]
  }

  /** `parts[:-1]`. */
  function DropLast(parts: seq<string>): seq<string>
    requires |parts| >= 1
  {
    parts[..|parts| - 1]
  }

  predicate EndsWith(s: string, suffix: string)
  {
    |s| >= |suffix| && s[|s| - |suffix|..] == suffix
  }

  // ---------------------------------------------------------------------------
  // Reference definitions, one character at a time

  /** The text before the first `c`, or all of `s` when it has none. */
  function Before(s: string, c: char): (r: string)
    ensures r <= s
    ensures c !in r
  {
    if |s| == 0 || s[0] == c then "" else [s[0]] + Before(s[1..], c)
  }

  /** The text after the last `c`, or all of `s` when it has none. */
  function AfterLast(s: string, c: char): (r: string)
    ensures |r| <= |s| && r == s[|s| - |r|..]
    ensures c !in r
  {
    if |s| == 0 || s[|s| - 1] == c then ""
    else AfterLast(s[..|s| - 1], c) + [s[|s| - 1]]
  }

  /** The text before the last `c`, or the empty string when `s` has none. */
  function BeforeLast(s: string, c: char): (r: string)
    ensures r <= s
    ensures c !in s ==> r == ""
  {
    if |s| == 0 then ""
    else if s[|s| - 1] == c then s[..|s| - 1]
    else BeforeLast(s[..|s| - 1], c)
  }

  // ---------------------------------------------------------------------------
  // Split and join

  /** Splitting a string that starts with a `c`-free text `a` puts `a` in front of the first part. */
  lemma {:induction false} SplitPrefix(a: string, c: char, s: string)
    requires c !in a
    ensures Split(a + s, c) == [a + Split(s, c)[0]] + Split(s, c)[1..]
  {
    if |a| > 0 {
      SplitPrefix(a[1..], c, s);
      assert (a + s)[1..] == a[1..] + s;
      assert [a[0]] + (a[1..] + Split(s, c)[0]) == a + Split(s, c)[0];
    } else {
      assert a + s == s;
      var ps := Split(s, c);
      assert ps == [ps[0]] + ps[1..];
      assert a + ps[0] == ps[0];
    }
  }

  /** Splitting the join of `c`-free parts gives the parts back. */
  lemma {:induction false} SplitJoin(parts: seq<string>, c: char)
    requires |parts| >= 1
    requires forall k :: 0 <= k < |parts| ==> c !in parts[k]
    ensures Split(Join([c], parts), c) == parts
  {
    if |parts| == 1 {
      SplitPrefix(parts[0], c, "");
      assert parts[0] + "" == parts[0];
    } else {
      var rest := Join([c], parts[1..]);
      SplitJoin(parts[1..], c);
      assert ([c] + rest)[1..] == rest;
      SplitPrefix(parts[0], c, [c] + rest);
      assert Join([c], parts) == parts[0] + ([c] + rest);
      assert parts[0] + "" == parts[0];
      assert parts == [parts[0]] + parts[1..];
    }
  }

  /** Joining the parts of a split with the separator gives the string back. */
  lemma {:induction false} JoinSplit(s: string, c: char)
    ensures Join([c], Split(s, c)) == s
  {
    if |s| > 0 {
      var rest := Split(s[1..], c);
      JoinSplit(s[1..], c);
      if s[0] == c {
        assert Split(s, c) == [""] + rest;
        assert s == [c] + s[1..];
        if |rest| == 1 {
          assert Join([c], [""] + rest) == "" + [c] + rest[0];
        } else {
          assert ([""] + rest)[1..] == rest;
        }
      } else {
        var parts := Split(s, c);
        assert parts == [[s[0]] + rest[0]] + rest[1..];
        if |rest| == 1 {
          assert s == [s[0]] + s[1..];
        } else {
          assert parts[1..] == rest[1..];
          assert Join([c], rest) == rest[0] + [c] + Join([c], rest[1..]);
          assert s == [s[0]] + s[1..];
        }
      }
    }
  }

  /** A separator at the end adds an empty last part. */
  lemma {:induction false} SplitSnocSeparator(s: string, c: char)
    ensures Split(s + [c], c) == Split(s, c) + [""]
  {
    if |s| == 0 {
      assert s + [c] == [c];
      assert [c][1..] == [];
      assert Split([c], c) == [""] + Split([], c);
    } else {
      var t := s[1..];
      assert (s + [c])[1..] == t + [c];
      SplitSnocSeparator(t, c);
      var qs := Split(t, c);
      if s[0] != c {
        var r := Split(t + [c], c);
        assert r[0] == qs[0];
        assert r[1..] == qs[1..] + [""];
      }
    }
  }

  /** Any other character at the end extends the last part. */
  lemma {:induction false} SplitSnocOther(s: string, c: char, x: char)
    requires x != c
    ensures Split(s + [x], c) == DropLast(Split(s, c)) + [Last(Split(s, c)) + [x]]
  {
    if |s| == 0 {
      var sx := s + [x];
      assert sx[0] == x && sx[1..] == s;
      assert Split(s, c) == [""];
      assert Split(sx, c) == [[x] + ""] + [""][1..];
      assert [x] + "" == "" + [x];
    } else {
      var t := s[1..];
      assert (s + [x])[1..] == t + [x];
      assert (s + [x])[0] == s[0];
      SplitSnocOther(t, c, x);
      if s[0] == c {
        SplitSnocOtherAfterSeparator(s, c, x);
      } else {
        SplitSnocOtherInFirst(s, c, x);
      }
    }
  }

  /** The inductive step of SplitSnocOther when `s` starts with the separator. */
  lemma SplitSnocOtherAfterSeparator(s: string, c: char, x: char)
    requires |s| > 0 && s[0] == c && x != c
    requires (s + [x])[1..] == s[1..] + [x]
    requires Split(s[1..] + [x], c) == DropLast(Split(s[1..], c)) + [Last(Split(s[1..], c)) + [x]]
    ensures Split(s + [x], c) == DropLast(Split(s, c)) + [Last(Split(s, c)) + [x]]
  {
    var qs := Split(s[1..], c);
    var ps := Split(s, c);
    assert ps == [""] + qs;
    assert DropLast(ps) == [""] + DropLast(qs);
    assert Last(ps) == Last(qs);
  }

  /** The inductive step of SplitSnocOther when `s` starts with another character. */
  lemma SplitSnocOtherInFirst(s: string, c: char, x: char)
    requires |s| > 0 && s[0] != c && x != c
    requires (s + [x])[1..] == s[1..] + [x] && (s + [x])[0] == s[0]
    requires Split(s[1..] + [x], c) == DropLast(Split(s[1..], c)) + [Last(Split(s[1..], c)) + [x]]
    ensures Split(s + [x], c) == DropLast(Split(s, c)) + [Last(Split(s, c)) + [x]]
  {
    var qs := Split(s[1..], c);
    var ps := Split(s, c);
    var r := Split(s[1..] + [x], c);
    assert ps == [[s[0]] + qs[0]] + qs[1..];
    assert Split(s + [x], c) == [[s[0]] + r[0]] + r[1..];
    if |qs| == 1 {
      assert r == [qs[0] + [x]];
      assert [s[0]] + (qs[0] + [x]) == ([s[0]] + qs[0]) + [x];
    } else {
      var h, mid := [s[0]] + qs[0], qs[1..|qs| - 1];
      assert qs[1..] == mid + [Last(qs)];
      assert qs == [qs[0]] + qs[1..];
      assert DropLast(qs) == [qs[0]] + mid;
      assert ps == [h] + mid + [Last(qs)];
      assert DropLast(ps) == [h] + mid;
      assert r == [qs[0]] + mid + [Last(qs) + [x]];
      assert r[1..] == mid + [Last(qs) + [x]];
    }
  }

  /** `s.split(c)[0]` is the text before the first `c`. */
  lemma {:induction false} SplitFirstIsBefore(s: string, c: char)
    ensures Split(s, c)[0] == Before(s, c)
  {
    if |s| > 0 && s[0] != c {
      SplitFirstIsBefore(s[1..], c);
    }
  }

  /** `s.split(c)[-1]` is the text after the last `c`. */
  lemma {:induction false} SplitLastIsAfterLast(s: string, c: char)
    ensures Last(Split(s, c)) == AfterLast(s, c)
  {
    if |s| > 0 {
      var front := s[..|s| - 1];
      var x := s[|s| - 1];
      SplitLastIsAfterLast(front, c);
      assert front + [x] == s;
      if x == c {
        SplitSnocSeparator(front, c);
      } else {
        SplitSnocOther(front, c, x);
      }
    }
  }

  /** `c.join(s.split(c)[:-1])` is the text before the last `c`. */
  lemma {:induction false} JoinDropLastIsBeforeLast(s: string, c: char)
    ensures Join([c], DropLast(Split(s, c))) == BeforeLast(s, c)
  {
    if |s| > 0 {
      var front := s[..|s| - 1];
      var x := s[|s| - 1];
      assert front + [x] == s;
      var ps := Split(front, c);
      if x == c {
        SplitSnocSeparator(front, c);
        assert DropLast(Split(s, c)) == ps;
        JoinSplit(front, c);
      } else {
        SplitSnocOther(front, c, x);
        JoinDropLastIsBeforeLast(front, c);
        assert DropLast(Split(s, c)) == DropLast(ps);
      }
    }
  }

  // ---------------------------------------------------------------------------
  // The reference definitions on strings of known shape

  lemma {:induction false} AfterLastAbsent(s: string, c: char)
    requires c !in s
    ensures AfterLast(s, c) == s
  {
    if |s| > 0 {
      AfterLastAbsent(s[..|s| - 1], c);
      assert s[..|s| - 1] + [s[|s| - 1]] == s;
    }
  }

  lemma {:induction false} BeforeLastAt(x: string, c: char, y: string)
    requires c !in y
    ensures BeforeLast(x + [c] + y, c) == x
  {
    var s := x + [c] + y;
    if |y| == 0 {
      assert s[..|s| - 1] == x;
    } else {
      BeforeLastAt(x, c, y[..|y| - 1]);
      assert s[..|s| - 1] == x + [c] + y[..|y| - 1];
      assert s[|s| - 1] == y[|y| - 1];
    }
  }

  lemma {:induction false} BeforeAt(x: string, c: char, y: string)
    requires c !in x
    ensures Before(x + [c] + y, c) == x
  {
    var s := x + [c] + y;
    if |x| > 0 {
      BeforeAt(x[1..], c, y);
      assert s[1..] == x[1..] + [c] + y;
      assert [x[0]] + x[1..] == x;
    }
  }

  /** A character absent from `s` is absent from every prefix of it. */
  lemma AbsentFromPrefix(p: string, s: string, c: char)
    requires p <= s && c !in s
    ensures c !in p
  {
  }

  /** A character absent from `s` is absent from every suffix of it. */
  lemma AbsentFromSuffix(p: string, s: string, c: char)
    requires |p| <= |s| && p == s[|s| - |p|..] && c !in s
    ensures c !in p
  {
  }
}
