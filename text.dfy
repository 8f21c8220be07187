/** The few Python string builtins that the email validator relies on:
    `str.count` of one character, `str.split` on one character, substring
    tests for a doubled character, and `sep.join`, which the reference
    definition of an address uses to put labels back together. */
module Text {

  /** Every character of `s` satisfies `P`. */
  predicate All(s: string, P: char -> bool) {
    forall k :: 0 <= k < |s| ==> P(s[k])
  }

  /** `s.count(c)` for a one-character `c`. */
  function Count(s: string, c: char): (n: nat)
    ensures n <= |s|
    ensures n == 0 <==> c !in s
  {
    if s == [] then 0
    else
      assert s == [s[0]] + s[1..];
      (if s[0] == c then 1 else 0) + Count(s[1..], c)
  }

  /** `(a + b).count(c) == a.count(c) + b.count(c)` */
  lemma {:induction false} CountConcat(a: string, b: string, c: char)
    ensures Count(a + b, c) == Count(a, c) + Count(b, c)
    decreases |a|
  {
    if a != [] {
      assert (a + b)[1..] == a[1..] + b;
      CountConcat(a[1..], b, c);
    } else {
      assert a + b == b;
    }
  }

  /** `s.startswith(c) or s.endswith(c)` for a one-character `c`. */
  predicate AtEdge(s: string, c: char) {
    |s| > 0 && (s[0] == c || s[|s| - 1] == c)
  }

  /** `c + c in s`: the character `c` occurs twice in a row. */
  predicate Doubled(s: string, c: char) {
    exists i :: 0 <= i < |s| - 1 && s[i] == c && s[i + 1] == c
  }

  /** `s.split(sep)`: the maximal runs between occurrences of `sep`,
      empty runs included, so there is always one more part than
      separators. */
  function Split(s: string, sep: char): (parts: seq<string>)
    ensures |parts| == Count(s, sep) + 1
    ensures forall i :: 0 <= i < |parts| ==> sep !in parts[i]
    decreases |s|
  {
    if s == [] then [""]
    else
      var rest := Split(s[1..], sep);
      if s[0] == sep then [""] + rest
      else [[s[0]] + rest[0]] + rest[1..]
  }

  /** `sep.join(parts)`. */
  function Join(parts: seq<string>, sep: char): (s: string)
    requires |parts| >= 1
    decreases |parts|
  {
    if |parts| == 1 then parts[0]
    else parts[0] + [sep] + Join(parts[1..], sep)
  }

  /** Splitting and joining again gives back the string. */
  lemma {:induction false} SplitJoin(s: string, sep: char)
    ensures Join(Split(s, sep), sep) == s
    decreases |s|
  {
    if s != [] {
      var rest := Split(s[1..], sep);
      SplitJoin(s[1..], sep);
      if s[0] == sep {
        JoinEmptyFirst(rest, sep);
      } else {
        JoinPrefixFirst(s[0], rest, sep);
      }
      assert [s[0]] + s[1..] == s;
    }
  }

  /** An empty first part contributes only its separator to a join. */
  lemma JoinEmptyFirst(rest: seq<string>, sep: char)
    requires |rest| >= 1
    ensures Join([""] + rest, sep) == [sep] + Join(rest, sep)
  {
    assert ([""] + rest)[1..] == rest;
  }

  /** A character put in front of the first part comes first in the join. */
  lemma JoinPrefixFirst(x: char, rest: seq<string>, sep: char)
    requires |rest| >= 1
    ensures Join([[x] + rest[0]] + rest[1..], sep) == [x] + Join(rest, sep)
  {
    var parts := [[x] + rest[0]] + rest[1..];
    if |rest| > 1 {
      assert parts[1..] == rest[1..];
    }
  }

  /** A string without the separator is a single part. */
  lemma {:induction false} SplitNoSep(p: string, sep: char)
    requires sep !in p
    ensures Split(p, sep) == [p]
    decreases |p|
  {
    if p != [] {
      assert p == [p[0]] + p[1..];
      SplitNoSep(p[1..], sep);
    }
  }

  /** A separator-free prefix followed by the separator is the first part. */
  lemma {:induction false} SplitPrefix(p: string, sep: char, t: string)
    requires sep !in p
    ensures Split(p + [sep] + t, sep) == [p] + Split(t, sep)
    decreases |p|
  {
    var s := p + [sep] + t;
    if p == [] {
      assert s[1..] == t;
    } else {
      assert s[1..] == p[1..] + [sep] + t;
      SplitPrefix(p[1..], sep, t);
      assert [p[0]] + p[1..] == p;
    }
  }

  /** Joining separator-free parts and splitting again gives back the parts. */
  lemma {:induction false} JoinSplit(parts: seq<string>, sep: char)
    requires |parts| >= 1
    requires forall i :: 0 <= i < |parts| ==> sep !in parts[i]
    ensures Split(Join(parts, sep), sep) == parts
    decreases |parts|
  {
    if |parts| == 1 {
      SplitNoSep(parts[0], sep);
    } else {
      JoinSplit(parts[1..], sep);
      SplitPrefix(parts[0], sep, Join(parts[1..], sep));
      assert [parts[0]] + parts[1..] == parts;
    }
  }

  /** A character absent from `s` is absent from every part of its split. */
  lemma {:induction false} SplitOmits(s: string, sep: char, c: char)
    requires c !in s
    ensures forall i :: 0 <= i < |Split(s, sep)| ==> c !in Split(s, sep)[i]
    decreases |s|
  {
    if s != [] {
      assert c !in s[1..] by { forall k | 0 <= k < |s| - 1 ensures s[1..][k] != c { assert s[1..][k] == s[k + 1]; } }
      SplitOmits(s[1..], sep, c);
      var rest := Split(s[1..], sep);
      if s[0] != sep {
        assert c !in [s[0]] + rest[0];
        var parts := [[s[0]] + rest[0]] + rest[1..];
        forall i | 1 <= i < |parts| ensures c !in parts[i] { assert parts[i] == rest[i]; }
      }
    }
  }

  /** When `s[i]` is the last separator of `s`, the last part is what follows it. */
  lemma {:induction false} SplitLast(s: string, sep: char, i: nat)
    requires i < |s| && s[i] == sep && sep !in s[i + 1..]
    ensures Split(s, sep)[|Split(s, sep)| - 1] == s[i + 1..]
    decreases i
  {
    var rest := Split(s[1..], sep);
    if i == 0 {
      SplitNoSep(s[1..], sep);
    } else {
      assert s[1..][i - 1] == sep && s[1..][i..] == s[i + 1..];
      SplitLast(s[1..], sep, i - 1);
      assert Count(s[1..], sep) >= 1 by { assert sep in s[1..]; }
      var parts := Split(s, sep);
      assert parts[|parts| - 1] == rest[|rest| - 1];
    }
  }

  /** Appending a character other than the separator extends the last part. */
  lemma {:induction false} SplitAppend(s: string, sep: char, c: char)
    requires c != sep
    ensures Split(s + [c], sep) == ExtendLast(Split(s, sep), c)
    decreases |s|
  {
    var t := s + [c];
    if s == [] {
      SplitNoSep([c], sep);
      assert t == [c];
    } else {
      assert t[1..] == s[1..] + [c];
      SplitAppend(s[1..], sep, c);
      var rest := Split(s[1..], sep);
      if s[0] == sep {
        ExtendLastCons("", rest, c);
      } else {
        ExtendLastPrefix(s[0], rest, c);
      }
    }
  }

  /** `parts` with `c` appended to its last element. */
  function ExtendLast(parts: seq<string>, c: char): seq<string>
    requires |parts| >= 1
  {
    parts[..|parts| - 1] + [parts[|parts| - 1] + [c]]
  }

  /** Extending the last part commutes with putting a part in front. */
  lemma ExtendLastCons(p: string, rest: seq<string>, c: char)
    requires |rest| >= 1
    ensures ExtendLast([p] + rest, c) == [p] + ExtendLast(rest, c)
  {
    assert ([p] + rest)[..|rest|] == [p] + rest[..|rest| - 1];
  }

  /** Extending the last part commutes with putting a character in front of the first part. */
  lemma ExtendLastPrefix(x: char, rest: seq<string>, c: char)
    requires |rest| >= 1
    ensures var q := ExtendLast(rest, c);
      ExtendLast([[x] + rest[0]] + rest[1..], c) == [[x] + q[0]] + q[1..]
  {
    var m := |rest|;
    var q := ExtendLast(rest, c);
    if m == 1 {
      assert q == [rest[0] + [c]];
      assert [x] + (rest[0] + [c]) == ([x] + rest[0]) + [c];
    } else {
      assert q[0] == rest[0];
      assert q[1..] == rest[1..m - 1] + [rest[m - 1] + [c]];
    }
  }

  /** The last part of a join comes after the last separator. */
  lemma {:induction false} JoinSnoc(parts: seq<string>, sep: char)
    requires |parts| >= 2
    ensures Join(parts, sep) == Join(parts[..|parts| - 1], sep) + [sep] + parts[|parts| - 1]
    decreases |parts|
  {
    if |parts| > 2 {
      JoinSnoc(parts[1..], sep);
      assert parts[1..][..|parts| - 2] == parts[..|parts| - 1][1..];
    }
  }

  /** A join of two or more parts holds the separator, starts where its first
      part starts and ends where its last part ends. */
  lemma JoinEdges(parts: seq<string>, sep: char)
    requires |parts| >= 2 && parts[0] != [] && parts[|parts| - 1] != []
    ensures var s := Join(parts, sep); var last := parts[|parts| - 1];
      && s != [] && sep in s
      && s[0] == parts[0][0]
      && s[|s| - 1] == last[|last| - 1]
  {
    var s := Join(parts, sep);
    assert s == parts[0] + [sep] + Join(parts[1..], sep);
    assert s[|parts[0]|] == sep;
    JoinSnoc(parts, sep);
  }

  /** Every character of a join satisfies `P` exactly when every character of
      every part does, provided the separator satisfies `P`. */
  lemma {:induction false} JoinAll(parts: seq<string>, sep: char, P: char -> bool)
    requires |parts| >= 1 && P(sep)
    ensures All(Join(parts, sep), P) <==> forall i :: 0 <= i < |parts| ==> All(parts[i], P)
    decreases |parts|
  {
    if |parts| > 1 {
      JoinAll(parts[1..], sep, P);
      var tail := Join(parts[1..], sep);
      var s := parts[0] + [sep] + tail;
      assert All(s, P) <==> All(parts[0], P) && All(tail, P) by {
        if All(parts[0], P) && All(tail, P) {
          forall k | 0 <= k < |s| ensures P(s[k]) {
            if k > |parts[0]| { assert s[k] == tail[k - |parts[0]| - 1]; }
          }
        }
        if All(s, P) {
          forall k | 0 <= k < |tail| ensures P(tail[k]) {
            assert tail[k] == s[k + |parts[0]| + 1];
          }
          forall k | 0 <= k < |parts[0]| ensures P(parts[0][k]) {
            assert parts[0][k] == s[k];
          }
        }
      }
      forall i | 0 < i < |parts| ensures All(parts[i], P) <==> All(parts[1..][i - 1], P) { }
    }
  }

  /** Joining non-empty separator-free parts never puts two separators side by side. */
  lemma {:induction false} JoinNotDoubled(parts: seq<string>, sep: char)
    requires |parts| >= 1
    requires forall i :: 0 <= i < |parts| ==> parts[i] != [] && sep !in parts[i]
    ensures !Doubled(Join(parts, sep), sep)
    decreases |parts|
  {
    if |parts| == 1 {
      assert sep !in parts[0];
    } else {
      JoinNotDoubled(parts[1..], sep);
      var p, tail := parts[0], Join(parts[1..], sep);
      var s := p + [sep] + tail;
      assert parts[1..][0] == parts[1];
      assert tail[0] == parts[1][0];
    }
  }
}
