/** The two string-library operations the row filter relies on:
    `str::find` (used only as "is there an occurrence") and `str::split`
    on a one-character separator, with `join` as its inverse. */
module Text {
  import opened Wrappers

  /** `p` occurs in `s` starting at index `j`. */
  predicate MatchAt(s: string, p: string, j: nat)
  {
    j + |p| <= |s| && s[j..j + |p|] == p
  }

  /** Index of the first occurrence of `p` in `s`, or `None`,
      like `str::find` with a string pattern. */
  function Find(s: string, p: string): (r: Option<nat>)
    ensures r.Some? ==> MatchAt(s, p, r.value)
    decreases |s|
  {
    if |s| < |p| then None
    else if s[..|p|] == p then Some(0)
    else
      match Find(s[1..], p)
      case None => None
      case Some(i) => MatchShift(s, p); Some(i + 1)
  }

  /** An occurrence past the first character is an occurrence in the tail. */
  lemma MatchShift(s: string, p: string)
    requires |s| > 0
    ensures forall j :: 0 < j <= |s| ==> (MatchAt(s, p, j) <==> MatchAt(s[1..], p, j - 1))
  {
    forall j | 0 < j <= |s|
      ensures MatchAt(s, p, j) <==> MatchAt(s[1..], p, j - 1)
    {
      if j + |p| <= |s| {
        var here, there := s[j..j + |p|], s[1..][j - 1..j - 1 + |p|];
        assert forall k :: 0 <= k < |p| ==> here[k] == there[k];
        assert here == there;
      }
    }
  }

  /** `p` occurs somewhere in `s`. */
  predicate Contains(s: string, p: string)
  {
    exists j :: 0 <= j <= |s| && MatchAt(s, p, j)
  }

  /** `Find` gives the first index where `p` occurs, and `None` exactly
      when `p` occurs nowhere; so `s.find(p) != None` is `Contains(s, p)`. */
  lemma {:induction false} FindSpec(s: string, p: string)
    ensures Find(s, p).Some? ==> forall j :: 0 <= j < Find(s, p).value ==> !MatchAt(s, p, j)
    ensures Find(s, p).None? <==> !Contains(s, p)
    decreases |s|
  {
    if |s| < |p| {
      assert forall j :: 0 <= j <= |s| ==> !MatchAt(s, p, j);
    } else if s[..|p|] == p {
      assert MatchAt(s, p, 0);
    } else {
      FindSpec(s[1..], p);
      MatchShift(s, p);
      if Find(s[1..], p).None? {
        forall j | 0 <= j <= |s|
          ensures !MatchAt(s, p, j)
        {
          if j > 0 {
            assert !MatchAt(s[1..], p, j - 1);
          }
        }
      }
    }
  }

  /** Occurrence of a one-character pattern is membership of that character. */
  lemma ContainsChar(s: string, c: char)
    ensures Contains(s, [c]) <==> c in s
  {
    if c in s {
      var j :| 0 <= j < |s| && s[j] == c;
      assert MatchAt(s, [c], j);
    }
    if Contains(s, [c]) {
      var j :| 0 <= j <= |s| && MatchAt(s, [c], j);
      assert s[j..j + 1][0] == c;
    }
  }

  /** Every character of an occurring pattern is a character of `s`. */
  lemma ContainsChars(s: string, p: string)
    requires Contains(s, p)
    ensures forall i :: 0 <= i < |p| ==> p[i] in s
  {
    var j :| 0 <= j <= |s| && MatchAt(s, p, j);
    forall i | 0 <= i < |p|
      ensures p[i] in s
    {
      assert s[j..j + |p|][i] == s[j + i];
    }
  }

  /** A pattern with a character that `s` lacks does not occur in `s`. */
  lemma MissingCharExcludes(s: string, p: string, i: nat)
    requires i < |p| && p[i] !in s
    ensures !Contains(s, p)
  {
    if Contains(s, p) {
      ContainsChars(s, p);
    }
  }

  /** `s.split(sep)` collected into a list: the pieces between the
      separators, in order; no separator gives the one piece `s`. */
  function Split(s: string, sep: char): (parts: seq<string>)
    ensures |parts| >= 1
    ensures forall i :: 0 <= i < |parts| ==> sep !in parts[i]
    decreases |s|
  {
    if |s| == 0 then [""]
    else
      var rest := Split(s[1..], sep);
      if s[0] == sep then [""] + rest
      else [[s[0]] + rest[0]] + rest[1..]
  }

  /** The pieces glued back together with `sep` between neighbours. */
  function Join(parts: seq<string>, sep: char): string
    requires |parts| >= 1
    decreases |parts|
  {
    if |parts| == 1 then parts[0]
    else parts[0] + [sep] + Join(parts[1..], sep)
  }

  /** Re-joining the pieces of a split gives back the original string. */
  lemma {:induction false} JoinSplit(s: string, sep: char)
    ensures Join(Split(s, sep), sep) == s
    decreases |s|
  {
    if |s| > 0 {
      var rest := Split(s[1..], sep);
      JoinSplit(s[1..], sep);
      if s[0] == sep {
        assert Split(s, sep)[1..] == rest;
        assert s == [sep] + s[1..];
      } else {
        var parts := Split(s, sep);
        if |rest| == 1 {
          assert parts == [[s[0]] + rest[0]];
        } else {
          assert parts[1..] == rest[1..];
          assert Join(rest, sep) == rest[0] + [sep] + Join(rest[1..], sep);
        }
        assert s == [s[0]] + s[1..];
      }
    }
  }

  /** Splitting a join of separator-free pieces gives back the pieces. */
  lemma {:induction false} SplitJoin(parts: seq<string>, sep: char)
    requires |parts| >= 1
    requires forall i :: 0 <= i < |parts| ==> sep !in parts[i]
    ensures Split(Join(parts, sep), sep) == parts
    decreases |parts|, |parts[0]|
  {
    var head := parts[0];
    if |head| == 0 {
      if |parts| > 1 {
        SplitJoin(parts[1..], sep);
        var tail := Join(parts[1..], sep);
        assert Join(parts, sep) == [sep] + tail;
        assert ([sep] + tail)[1..] == tail;
        assert parts == [""] + parts[1..];
      }
    } else {
      var shorter := [head[1..]] + parts[1..];
      assert shorter[1..] == parts[1..];
      assert forall i :: 0 < i < |shorter| ==> shorter[i] == parts[i];
      assert sep !in shorter[0];
      SplitJoin(shorter, sep);
      var whole := Join(parts, sep);
      assert whole == [head[0]] + Join(shorter, sep) by {
        if |parts| > 1 {
          assert head == [head[0]] + head[1..];
        }
      }
      assert whole[1..] == Join(shorter, sep);
      assert head == [head[0]] + head[1..];
      assert parts == [[head[0]] + shorter[0]] + shorter[1..];
    }
  }

  /** A string without the separator splits into itself alone; in
      particular the empty string splits into `[""]`. */
  lemma {:induction false} SplitNoSeparator(s: string, sep: char)
    requires sep !in s
    ensures Split(s, sep) == [s]
    decreases |s|
  {
    if |s| > 0 {
      SplitNoSeparator(s[1..], sep);
      assert s == [s[0]] + s[1..];
    }
  }

  /** The number of pieces is the number of separators plus one. */
  lemma {:induction false} SplitCount(s: string, sep: char)
    ensures |Split(s, sep)| == multiset(s)[sep] + 1
    decreases |s|
  {
    if |s| > 0 {
      SplitCount(s[1..], sep);
      assert s == [s[0]] + s[1..];
      assert multiset(s) == multiset{s[0]} + multiset(s[1..]);
    }
  }
}
