/** The few Python string operations the command builders rely on:
    `sep.join(parts)`, `s.split(sep, maxsplit)` and `s.strip()`,
    each for a one-character separator. */
module Strings {

  /** `sep.join(parts)`. */
  function Join(parts: seq<string>, sep: char): (s: string)
    ensures |parts| >= 1 ==> |s| >= |parts| - 1
  {
    if |parts| == 0 then ""
    else if |parts| == 1 then parts[0]
    else parts[0] + [sep] + Join(parts[1..], sep)
  }

  /** The join of a first part and a non-empty rest: the first part, a
      separator, and the join of the rest. */
  lemma JoinCons(first: string, rest: seq<string>, sep: char)
    requires |rest| >= 1
    ensures Join([first] + rest, sep) == first + [sep] + Join(rest, sep)
  {
    assert ([first] + rest)[1..] == rest;
  }

  /** `s.split(sep, maxSplit)`: at most `maxSplit` cuts, taken from the
      left, so the last part keeps any further separators. Defined one
      character at a time: a separator with a cut left starts a new part,
      any other character joins the current one. */
  function SplitN(s: string, sep: char, maxSplit: nat): (parts: seq<string>)
    ensures 1 <= |parts| <= maxSplit + 1
    decreases |s|
  {
    if |s| == 0 then [""]
    else if maxSplit == 0 then [s]
    else if s[0] == sep then [""] + SplitN(s[1..], sep, maxSplit - 1)
    else
      var rest := SplitN(s[1..], sep, maxSplit);
      [[s[0]] + rest[0]] + rest[1..]
  }

  /** `s.split(sep)` without a limit: every separator cuts. */
  function Split(s: string, sep: char): (parts: seq<string>)
    ensures |parts| >= 1
    ensures forall i :: 0 <= i < |parts| ==> sep !in parts[i]
  {
    SplitNAllFree(s, sep, |s|);
    SplitN(s, sep, |s|)
  }

  /** `s.split(sep)` has one more part than `s` has separators. */
  lemma SplitPieces(s: string, sep: char)
    ensures |Split(s, sep)| == multiset(s)[sep] + 1
  {
    SplitNPieces(s, sep, |s|);
  }

  /** The last element of a non-empty list. */
  function Last<T>(xs: seq<T>): T
    requires |xs| > 0
  {
    xs[|xs| - 1]
  }

  /** Every part before the last holds no separator. */
  lemma {:induction false} SplitNInitFree(s: string, sep: char, maxSplit: nat)
    ensures forall i :: 0 <= i < |SplitN(s, sep, maxSplit)| - 1 ==> sep !in SplitN(s, sep, maxSplit)[i]
    decreases |s|
  {
    if |s| > 0 && maxSplit > 0 {
      var parts := SplitN(s, sep, maxSplit);
      if s[0] == sep {
        var rest := SplitN(s[1..], sep, maxSplit - 1);
        SplitNInitFree(s[1..], sep, maxSplit - 1);
        assert forall i :: 1 <= i < |parts| ==> parts[i] == rest[i - 1];
      } else {
        var rest := SplitN(s[1..], sep, maxSplit);
        SplitNInitFree(s[1..], sep, maxSplit);
        assert forall i :: 1 <= i < |parts| ==> parts[i] == rest[i];
        if |parts| > 1 {
          assert sep !in rest[0];
          assert parts[0] == [s[0]] + rest[0];
        }
      }
    }
  }

  /** The last part holds no separator either when a cut was left over. */
  lemma {:induction false} SplitNLastFree(s: string, sep: char, maxSplit: nat)
    ensures |SplitN(s, sep, maxSplit)| <= maxSplit ==> sep !in Last(SplitN(s, sep, maxSplit))
    decreases |s|
  {
    if |s| > 0 && maxSplit > 0 {
      var parts := SplitN(s, sep, maxSplit);
      if s[0] == sep {
        var rest := SplitN(s[1..], sep, maxSplit - 1);
        assert parts == [""] + rest;
        SplitNLastFree(s[1..], sep, maxSplit - 1);
        LastOfPrepend("", rest);
      } else {
        var rest := SplitN(s[1..], sep, maxSplit);
        assert |parts| == |rest|;
        SplitNLastFree(s[1..], sep, maxSplit);
        if |rest| == 1 {
          assert Last(parts) == [s[0]] + rest[0];
        } else {
          assert Last(parts) == Last(rest);
        }
      }
    }
  }

  /** With at least as many cuts as characters, every separator makes a
      cut, so there is one more part than there are separators. */
  lemma {:induction false} SplitNPieces(s: string, sep: char, maxSplit: nat)
    requires maxSplit >= |s|
    ensures |SplitN(s, sep, maxSplit)| == multiset(s)[sep] + 1
    decreases |s|
  {
    if |s| > 0 {
      assert s == [s[0]] + s[1..];
      if s[0] == sep {
        SplitNPieces(s[1..], sep, maxSplit - 1);
      } else {
        SplitNPieces(s[1..], sep, maxSplit);
      }
    }
  }

  /** With at least as many cuts as characters, every cut is used only
      when the string is all separators, and the last part is then empty. */
  lemma {:induction false} SplitNCount(s: string, sep: char, maxSplit: nat)
    requires maxSplit >= |s|
    ensures |SplitN(s, sep, maxSplit)| <= maxSplit || sep !in Last(SplitN(s, sep, maxSplit))
    decreases |s|
  {
    if |s| > 0 {
      var parts := SplitN(s, sep, maxSplit);
      if s[0] == sep {
        var rest := SplitN(s[1..], sep, maxSplit - 1);
        assert parts == [""] + rest;
        SplitNCount(s[1..], sep, maxSplit - 1);
        LastOfPrepend("", rest);
      } else {
        var rest := SplitN(s[1..], sep, maxSplit);
        SplitNCount(s[1..], sep, maxSplit);
        MergedHead(s[0], rest);
      }
    }
  }

  /** Gluing a character onto the first part keeps the number of parts,
      and the last part too when there are at least two. */
  lemma MergedHead(c: char, rest: seq<string>)
    requires |rest| >= 1
    ensures |[[c] + rest[0]] + rest[1..]| == |rest|
    ensures |rest| >= 2 ==> Last([[c] + rest[0]] + rest[1..]) == Last(rest)
  {
  }

  lemma LastOfPrepend<T>(x: T, xs: seq<T>)
    requires |xs| > 0
    ensures Last([x] + xs) == Last(xs)
  {
  }

  /** No part holds a separator when there are at least as many cuts as
      characters. */
  lemma SplitNAllFree(s: string, sep: char, maxSplit: nat)
    requires maxSplit >= |s|
    ensures forall i :: 0 <= i < |SplitN(s, sep, maxSplit)| ==> sep !in SplitN(s, sep, maxSplit)[i]
  {
    SplitNInitFree(s, sep, maxSplit);
    SplitNLastFree(s, sep, maxSplit);
    SplitNCount(s, sep, maxSplit);
  }

  /** Joining the parts of a split with the same separator restores the string. */
  lemma {:induction false} JoinSplitN(s: string, sep: char, maxSplit: nat)
    ensures Join(SplitN(s, sep, maxSplit), sep) == s
    decreases |s|
  {
    if |s| > 0 && maxSplit > 0 {
      if s[0] == sep {
        var rest := SplitN(s[1..], sep, maxSplit - 1);
        JoinSplitN(s[1..], sep, maxSplit - 1);
        JoinCons("", rest, sep);
        assert s == [sep] + s[1..];
      } else {
        var rest := SplitN(s[1..], sep, maxSplit);
        JoinSplitN(s[1..], sep, maxSplit);
        JoinPrependChar(s[0], rest, sep);
        assert s == [s[0]] + s[1..];
      }
    }
  }

  /** Putting a character in front of the first part puts it in front of
      the join. */
  lemma JoinPrependChar(c: char, parts: seq<string>, sep: char)
    requires |parts| >= 1
    ensures Join([[c] + parts[0]] + parts[1..], sep) == [c] + Join(parts, sep)
  {
    if |parts| > 1 {
      JoinCons([c] + parts[0], parts[1..], sep);
      JoinCons(parts[0], parts[1..], sep);
      assert [parts[0]] + parts[1..] == parts;
    }
  }

  /** One cut of `SplitN`: the part before the first separator, then the
      split of what follows it with one cut fewer. */
  lemma {:induction false} SplitNCut(head: string, sep: char, tail: string, maxSplit: nat)
    requires sep !in head && maxSplit > 0
    ensures SplitN(head + [sep] + tail, sep, maxSplit) == [head] + SplitN(tail, sep, maxSplit - 1)
  {
    var s := head + [sep] + tail;
    if |head| == 0 {
      assert s[1..] == tail;
    } else {
      assert s[1..] == head[1..] + [sep] + tail;
      SplitNCut(head[1..], sep, tail, maxSplit);
      assert [s[0]] + head[1..] == head;
    }
  }

  /** A string with no separator, or no cut left, is one part. */
  lemma {:induction false} SplitNWhole(s: string, sep: char, maxSplit: nat)
    ensures maxSplit == 0 || sep !in s ==> SplitN(s, sep, maxSplit) == [s]
    decreases |s|
  {
    if |s| > 0 && maxSplit > 0 && sep !in s {
      SplitNWhole(s[1..], sep, maxSplit);
      assert [s[0]] + s[1..] == s;
    }
  }

  /** Splitting a join of separator-free parts gives the parts back; with a
      limit, the last part may hold separators when every cut is used. */
  lemma {:induction false} SplitNJoin(parts: seq<string>, sep: char, maxSplit: nat)
    requires |parts| >= 1
    requires forall i :: 0 <= i < |parts| - 1 ==> sep !in parts[i]
    requires |parts| - 1 <= maxSplit
    requires |parts| - 1 < maxSplit ==> sep !in Last(parts)
    ensures SplitN(Join(parts, sep), sep, maxSplit) == parts
  {
    if |parts| == 1 {
      assert Join(parts, sep) == parts[0];
      SplitNWhole(parts[0], sep, maxSplit);
      assert parts == [parts[0]];
    } else {
      var rest := parts[1..];
      SplitNJoinTail(parts, sep, maxSplit);
      SplitNJoin(rest, sep, maxSplit - 1);
      assert parts == [parts[0]] + rest;
      SplitNJoinCons(parts[0], rest, sep, maxSplit);
    }
  }

  /** Dropping the first of several splittable parts leaves parts that are
      splittable with one cut fewer. */
  lemma SplitNJoinTail(parts: seq<string>, sep: char, maxSplit: nat)
    requires |parts| >= 2
    requires forall i :: 0 <= i < |parts| - 1 ==> sep !in parts[i]
    requires |parts| - 1 <= maxSplit
    requires |parts| - 1 < maxSplit ==> sep !in Last(parts)
    ensures maxSplit >= 1 && sep !in parts[0]
    ensures forall i :: 0 <= i < |parts[1..]| - 1 ==> sep !in parts[1..][i]
    ensures |parts[1..]| - 1 <= maxSplit - 1
    ensures |parts[1..]| - 1 < maxSplit - 1 ==> sep !in Last(parts[1..])
  {
    assert Last(parts[1..]) == Last(parts);
    assert forall k :: 0 <= k < |parts| - 2 ==> parts[1..][k] == parts[k + 1];
  }

  /** One more separator-free part in front of a join that splits back
      into its parts still splits back, using one more cut. */
  lemma SplitNJoinCons(first: string, rest: seq<string>, sep: char, maxSplit: nat)
    requires |rest| >= 1 && sep !in first && maxSplit > 0
    requires SplitN(Join(rest, sep), sep, maxSplit - 1) == rest
    ensures SplitN(Join([first] + rest, sep), sep, maxSplit) == [first] + rest
  {
    JoinCons(first, rest, sep);
    SplitNCut(first, sep, Join(rest, sep), maxSplit);
  }

  /** Unlimited split inverts join for separator-free parts. */
  lemma SplitJoin(parts: seq<string>, sep: char)
    requires |parts| >= 1
    requires forall i :: 0 <= i < |parts| ==> sep !in parts[i]
    ensures Split(Join(parts, sep), sep) == parts
  {
    SplitNJoin(parts, sep, |Join(parts, sep)|);
  }

  /** Joining two non-empty lists puts one separator between their joins. */
  lemma {:induction false} JoinConcat(a: seq<string>, b: seq<string>, sep: char)
    requires |a| >= 1 && |b| >= 1
    ensures Join(a + b, sep) == Join(a, sep) + [sep] + Join(b, sep)
  {
    if |a| == 1 {
      assert (a + b)[1..] == b;
    } else {
      assert (a + b)[1..] == a[1..] + b;
      JoinConcat(a[1..], b, sep);
    }
  }

  /** Each suffix of `parts` joins as its first part, a separator, and the
      join of the rest: the join unrolled one step at every position. */
  lemma JoinUnrolled(parts: seq<string>, sep: char)
    ensures forall k :: 0 <= k < |parts| - 1 ==>
      Join(parts[k..], sep) == parts[k] + [sep] + Join(parts[k + 1..], sep)
  {
    forall k | 0 <= k < |parts| - 1
      ensures Join(parts[k..], sep) == parts[k] + [sep] + Join(parts[k + 1..], sep)
    {
      assert parts[k..][1..] == parts[k + 1..];
    }
  }

  /** A join of `first`, some middle parts and a non-empty tail starts with
      `first` and a separator and ends with a separator and the tail's join. */
  lemma JoinFrame(first: string, middle: seq<string>, tail: seq<string>, sep: char)
    requires |tail| >= 1
    ensures first + [sep] <= Join([first] + middle + tail, sep)
    ensures EndsWith(Join([first] + middle + tail, sep), [sep] + Join(tail, sep))
  {
    assert [first] + middle + tail == [first] + (middle + tail);
    JoinCons(first, middle + tail, sep);
    PrefixOfConcat(first + [sep], Join(middle + tail, sep));
    JoinConcat([first] + middle, tail, sep);
    EndsWithConcat3(Join([first] + middle, sep), [sep], Join(tail, sep));
  }

  lemma PrefixOfConcat(a: string, b: string)
    ensures a <= a + b
  {
    assert (a + b)[..|a|] == a;
  }

  lemma EndsWithConcat3(a: string, b: string, c: string)
    ensures EndsWith(a + b + c, b + c)
  {
    assert (a + b + c)[|a|..] == b + c;
  }

  /** A join holds a character other than the separator only if a part does. */
  lemma {:induction false} JoinAvoids(parts: seq<string>, sep: char, c: char)
    requires c != sep
    requires forall i :: 0 <= i < |parts| ==> c !in parts[i]
    ensures c !in Join(parts, sep)
  {
    if |parts| > 1 {
      JoinAvoids(parts[1..], sep, c);
    }
  }

  /** A join whose first part is non-empty is non-empty. */
  lemma JoinNonEmpty(parts: seq<string>, sep: char)
    requires |parts| > 0 && parts[0] != ""
    ensures Join(parts, sep) != ""
  {
    if |parts| > 1 {
      assert Join(parts, sep)[0] == parts[0][0];
    }
  }

  /** `s.endswith(suffix)`. */
  predicate EndsWith(s: string, suffix: string)
  {
    |suffix| <= |s| && s[|s| - |suffix|..] == suffix
  }

  /** The characters Python 2's `str.strip()` removes. */
  predicate IsSpace(c: char)
  {
    c == ' ' || c == '\t' || c == '\n' || c == '\r' || c == '\U{0B}' || c == '\U{0C}'
  }

  /** Neither end of `s` is whitespace. */
  predicate Trimmed(s: string)
  {
    s == "" || (!IsSpace(s[0]) && !IsSpace(s[|s| - 1]))
  }

  function TrimStart(s: string): (r: string)
    ensures |r| <= |s| && r == s[|s| - |r|..]
    ensures r == "" || !IsSpace(r[0])
    ensures forall i :: 0 <= i < |s| - |r| ==> IsSpace(s[i])
  {
    if |s| > 0 && IsSpace(s[0]) then TrimStart(s[1..]) else s
  }

  function TrimEnd(s: string): (r: string)
    ensures |r| <= |s| && r == s[..|r|]
    ensures r == "" || !IsSpace(r[|r| - 1])
    ensures forall i :: |r| <= i < |s| ==> IsSpace(s[i])
  {
    if |s| > 0 && IsSpace(s[|s| - 1]) then TrimEnd(s[..|s| - 1]) else s
  }

  /** `s.strip()`: drops leading and trailing whitespace and nothing else. */
  function Strip(s: string): (r: string)
    ensures Trimmed(r)
    ensures Trimmed(s) ==> r == s
    ensures exists lo: nat, hi: nat ::
      && lo <= hi <= |s| && r == s[lo..hi]
      && (forall i :: 0 <= i < lo ==> IsSpace(s[i]))
      && (forall i :: hi <= i < |s| ==> IsSpace(s[i]))
    ensures forall c :: c in r ==> c in s
  {
    var t := TrimStart(s);
    var r := TrimEnd(t);
    TrimmedSlice(s, t, r);
    r
  }

  /** Trimming a suffix `t` of `s` down to its prefix `r` leaves the slice
      of `s` that starts where `t` does; what lies past it was dropped from
      `t`. */
  lemma TrimmedSlice(s: string, t: string, r: string)
    requires |t| <= |s| && t == s[|s| - |t|..]
    requires |r| <= |t| && r == t[..|r|]
    requires forall i :: |r| <= i < |t| ==> IsSpace(t[i])
    ensures r == s[|s| - |t|..|s| - |t| + |r|]
    ensures forall i :: |s| - |t| + |r| <= i < |s| ==> IsSpace(s[i])
    ensures forall c :: c in r ==> c in s
  {
    var lo := |s| - |t|;
    SliceOfSlice(s, lo, |r|);
    forall i | lo + |r| <= i < |s|
      ensures IsSpace(s[i])
    {
      assert s[i] == t[i - lo];
    }
  }

  lemma SliceOfSlice(s: string, lo: nat, n: nat)
    requires lo + n <= |s|
    ensures s[lo..][..n] == s[lo..lo + n]
  {
  }
}
