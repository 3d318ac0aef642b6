/** String helpers with the meaning Python gives to the str methods the
    generator scripts call: startswith, split, join, replace, strip, lower
    and title. Strings are sequences of Unicode code points. */
module Strings {

  /** `s.startswith(p)` */
  predicate StartsWith(s: string, p: string)
  {
    |p| <= |s| && s[..|p|] == p
  }

  /** `s.endswith(p)` */
  predicate EndsWith(s: string, p: string)
  {
    |p| <= |s| && s[|s| - |p|..] == p
  }

  /** `p` occurs in `s` at index `i`. */
  predicate MatchAt(s: string, p: string, i: int)
  {
    0 <= i && i + |p| <= |s| && s[i..i + |p|] == p
  }

  /** `t` occurs somewhere in `s`. */
  ghost predicate IsInfix(t: string, s: string)
  {
    exists i :: MatchAt(s, t, i)
  }

  /** Some occurrence of `p` in `s` starts before index `k`. */
  predicate OccursBefore(s: string, p: string, k: int)
  {
    exists i :: 0 <= i < k && MatchAt(s, p, i)
  }

  /** `p in s` */
  predicate Contains(s: string, p: string)
  {
    OccursBefore(s, p, |s|)
  }

  lemma MatchMid(a: string, t: string, b: string)
    ensures MatchAt(a + (t + b), t, |a|)
  {
    assert (a + (t + b))[|a|..|a| + |t|] == t;
  }

  lemma InfixMid(a: string, t: string, b: string)
    ensures IsInfix(t, a + (t + b))
  {
    MatchMid(a, t, b);
  }

  lemma MatchLeft(s: string, t: string, i: int, b: string)
    requires MatchAt(s, t, i)
    ensures MatchAt(s + b, t, i)
  {
    assert (s + b)[i..i + |t|] == s[i..i + |t|];
  }

  lemma MatchRight(a: string, s: string, t: string, i: int)
    requires MatchAt(s, t, i)
    ensures MatchAt(a + s, t, |a| + i)
  {
    assert (a + s)[|a| + i..|a| + i + |t|] == s[i..i + |t|];
  }

  lemma InfixLeft(t: string, a: string, b: string)
    requires IsInfix(t, a)
    ensures IsInfix(t, a + b)
  {
    var i :| MatchAt(a, t, i);
    MatchLeft(a, t, i, b);
  }

  lemma InfixRight(t: string, a: string, b: string)
    requires IsInfix(t, b)
    ensures IsInfix(t, a + b)
  {
    var i :| MatchAt(b, t, i);
    MatchRight(a, b, t, i);
  }

  lemma InfixIn(t: string, u: string, s: string)
    requires IsInfix(t, u) && IsInfix(u, s)
    ensures IsInfix(t, s)
  {
    var i :| MatchAt(u, t, i);
    var j :| MatchAt(s, u, j);
    forall k | 0 <= k < |t|
      ensures s[j + i + k] == t[k]
    {
      assert s[j + i + k] == s[j..j + |u|][i + k];
      assert t[k] == u[i..i + |t|][k];
    }
    assert s[j + i..j + i + |t|] == t;
    assert MatchAt(s, t, j + i);
  }

  lemma StartsWithLeft(s: string, p: string, b: string)
    requires StartsWith(s, p)
    ensures StartsWith(s + b, p)
  {
    assert (s + b)[..|p|] == s[..|p|];
  }

  lemma EndsWithRight(a: string, s: string, p: string)
    requires EndsWith(s, p)
    ensures EndsWith(a + s, p)
  {
    assert (a + s)[|a + s| - |p|..] == s[|s| - |p|..];
  }

  // Concatenation regrouped. Sequence equality is otherwise proved element
  // by element, which is costly when a part is a long string literal.

  lemma AppendAssoc<T>(a: seq<T>, b: seq<T>, c: seq<T>)
    ensures a + (b + c) == a + b + c
  {
  }

  lemma AppendEmpty<T>(a: seq<T>)
    ensures a + [] == a
  {
  }

  lemma Regroup3<T>(a: seq<T>, b: seq<T>, c: seq<T>, d: seq<T>)
    ensures a + b + c + d == a + (b + (c + d))
  {
  }

  lemma Regroup5<T>(a: seq<T>, b: seq<T>, c: seq<T>, d: seq<T>, e: seq<T>, f: seq<T>)
    ensures a + b + c + d + e + f == a + (b + (c + (d + (e + f))))
  {
  }

  /** `s.split(d)` for a one-character separator `d`. */
  function Split(s: string, d: char): (r: seq<string>)
    ensures |r| >= 1
    ensures forall k :: 0 <= k < |r| ==> d !in r[k]
  {
    if |s| == 0 then [""]
    else
      var rest := Split(s[1..], d);
      if s[0] == d then [""] + rest
      else [[s[0]] + rest[0]] + rest[1..]
  }

  /** `sep.join(xs)` */
  function Join(xs: seq<string>, sep: string): string
  {
    if |xs| == 0 then ""
    else if |xs| == 1 then xs[0]
    else xs[0] + sep + Join(xs[1..], sep)
  }

  /** Joining the pieces of a split with the separator gives the string back. */
  lemma {:induction false} JoinSplit(s: string, d: char)
    ensures Join(Split(s, d), [d]) == s
  {
    if |s| > 0 {
      var rest := Split(s[1..], d);
      JoinSplit(s[1..], d);
      if s[0] == d {
        assert Split(s, d) == [""] + rest;
        assert ([""] + rest)[1..] == rest;
      } else {
        var r := Split(s, d);
        assert r == [[s[0]] + rest[0]] + rest[1..];
        if |rest| > 1 {
          assert r[1..] == rest[1..];
          assert Join(rest, [d]) == rest[0] + [d] + Join(rest[1..], [d]);
        }
        assert s == [s[0]] + s[1..];
      }
    }
  }

  /** Splitting a string that starts with a piece free of the separator
      puts that piece at the front of the first part. */
  lemma {:induction false} SplitPrefix(w: string, t: string, d: char)
    requires d !in w
    ensures Split(w + t, d) == [w + Split(t, d)[0]] + Split(t, d)[1..]
  {
    if |w| > 0 {
      SplitPrefix(w[1..], t, d);
      assert (w + t)[0] == w[0] && (w + t)[1..] == w[1..] + t;
      assert [w[0]] + (w[1..] + Split(t, d)[0]) == w + Split(t, d)[0];
    } else {
      var r := Split(t, d);
      assert w + t == t && w + r[0] == r[0];
      assert r == [r[0]] + r[1..];
    }
  }

  /** Splitting pieces joined by a separator that none of them holds gives
      the pieces back. */
  lemma {:induction false} SplitJoin(xs: seq<string>, d: char)
    requires |xs| >= 1
    requires forall k :: 0 <= k < |xs| ==> d !in xs[k]
    ensures Split(Join(xs, [d]), d) == xs
  {
    if |xs| == 1 {
      SplitPrefix(xs[0], "", d);
      assert xs[0] + "" == xs[0];
    } else {
      var rest := Join(xs[1..], [d]);
      SplitJoin(xs[1..], d);
      assert Split([d] + rest, d) == [""] + Split(rest, d);
      AppendAssoc(xs[0], [d], rest);
      SplitPrefix(xs[0], [d] + rest, d);
      assert xs[0] + "" == xs[0];
      assert xs == [xs[0]] + xs[1..];
    }
  }

  /** The concatenation of a sequence of strings (`''.join(xs)`). */
  function Concat(xs: seq<string>): string
  {
    if |xs| == 0 then "" else Concat(xs[..|xs| - 1]) + xs[|xs| - 1]
  }

  lemma {:induction false} ConcatAppend(a: seq<string>, b: seq<string>)
    ensures Concat(a + b) == Concat(a) + Concat(b)
  {
    if |b| == 0 {
      assert a + b == a;
    } else {
      assert (a + b)[..|a + b| - 1] == a + b[..|b| - 1];
      ConcatAppend(a, b[..|b| - 1]);
      AppendAssoc(Concat(a), Concat(b[..|b| - 1]), b[|b| - 1]);
    }
  }

  /** `s.replace(p, r)`: every non-overlapping occurrence of `p`, scanning
      from the left, is replaced by `r`. */
  function ReplaceAll(s: string, p: string, r: string): string
    requires |p| > 0
  {
    if |s| < |p| then s
    else if s[..|p|] == p then r + ReplaceAll(s[|p|..], p, r)
    else [s[0]] + ReplaceAll(s[1..], p, r)
  }

  /** Replacing one character by another keeps the length and changes
      exactly the positions that held it. */
  lemma {:induction false} ReplaceChar(s: string, c: char, d: char)
    ensures |ReplaceAll(s, [c], [d])| == |s|
    ensures forall k :: 0 <= k < |s| ==> ReplaceAll(s, [c], [d])[k] == if s[k] == c then d else s[k]
  {
    if |s| > 0 {
      assert s[..1] == [s[0]];
      ReplaceChar(s[1..], c, d);
    }
  }

  /** `s.replace(p, r, 1)`: only the first occurrence is replaced. */
  function ReplaceFirst(s: string, p: string, r: string): string
    requires |p| > 0
  {
    if |s| < |p| then s
    else if s[..|p|] == p then r + s[|p|..]
    else [s[0]] + ReplaceFirst(s[1..], p, r)
  }

  /** A prefix holding no character that starts `p` passes `ReplaceAll` unchanged. */
  lemma {:induction false} ReplaceAllSkip(u: string, t: string, p: string, r: string)
    requires |p| > 0
    requires forall k :: 0 <= k < |u| ==> u[k] != p[0]
    ensures ReplaceAll(u + t, p, r) == u + ReplaceAll(t, p, r)
  {
    var s := u + t;
    if |u| == 0 {
      assert s == t;
    } else if |s| >= |p| {
      assert s[..|p|][0] == u[0];
      assert s[..|p|] != p;
      assert s[1..] == u[1..] + t;
      calc {
        ReplaceAll(s, p, r);
        [u[0]] + ReplaceAll(u[1..] + t, p, r);
        { ReplaceAllSkip(u[1..], t, p, r); }
        [u[0]] + (u[1..] + ReplaceAll(t, p, r));
        { assert u == [u[0]] + u[1..]; }
        u + ReplaceAll(t, p, r);
      }
    }
  }
  /** A prefix whose second character already rules out a match, and
      whose later characters cannot start one, passes `ReplaceAll` unchanged. */
  lemma ReplaceAllPastHead(u: string, t: string, p: string, r: string)
    requires |p| >= 2 && |u| >= 2 && u[1] != p[1]
    requires forall k :: 1 <= k < |u| ==> u[k] != p[0]
    ensures ReplaceAll(u + t, p, r) == u + ReplaceAll(t, p, r)
  {
    var s := u + t;
    if |s| >= |p| {
      assert s[..|p|][1] == u[1];
      assert s[..|p|] != p;
      assert s[1..] == u[1..] + t;
      ReplaceAllSkip(u[1..], t, p, r);
      assert u == [u[0]] + u[1..];
      AppendAssoc([u[0]], u[1..], ReplaceAll(t, p, r));
    }
  }


  /** When no occurrence of `p` starts before index `k`, the first
      replacement happens (if at all) in `s[k..]`. */
  lemma OccursBeforeTail(s: string, p: string, k: nat)
    requires 0 < k <= |s| && !OccursBefore(s, p, k)
    ensures !OccursBefore(s[1..], p, k - 1)
  {
    if OccursBefore(s[1..], p, k - 1) {
      var i :| 0 <= i < k - 1 && MatchAt(s[1..], p, i);
      assert s[i + 1..i + 1 + |p|] == s[1..][i..i + |p|];
      assert MatchAt(s, p, i + 1);
    }
  }

  /** When no occurrence of `p` starts before index `k`, the first
      replacement happens (if at all) in `s[k..]`. */
  lemma {:induction false} ReplaceFirstSkip(s: string, p: string, r: string, k: nat)
    requires |p| > 0 && k <= |s|
    requires !OccursBefore(s, p, k)
    ensures ReplaceFirst(s, p, r) == s[..k] + ReplaceFirst(s[k..], p, r)
  {
    if k == 0 {
      assert s[..0] + s[0..] == s;
    } else if |s| < |p| {
      assert s[..k] + s[k..] == s;
    } else {
      assert !MatchAt(s, p, 0);
      assert ReplaceFirst(s, p, r) == [s[0]] + ReplaceFirst(s[1..], p, r);
      var t := s[1..];
      OccursBeforeTail(s, p, k);
      ReplaceFirstSkip(t, p, r, k - 1);
      assert t[k - 1..] == s[k..];
      assert t[..k - 1] == s[1..k];
      assert [s[0]] + s[1..k] == s[..k];
      AppendAssoc([s[0]], s[1..k], ReplaceFirst(s[k..], p, r));
    }
  }

  /** A string in which `p` does not occur is left unchanged by `ReplaceFirst`. */
  lemma {:induction false} ReplaceFirstAbsent(s: string, p: string, r: string)
    requires |p| > 0
    requires !OccursBefore(s, p, |s|)
    ensures ReplaceFirst(s, p, r) == s
  {
    ReplaceFirstSkip(s, p, r, |s|);
  }

  /** An occurrence of `p` at index `i`, with none before it, is the one replaced. */
  lemma ReplaceFirstAt(s: string, p: string, r: string, i: nat)
    requires |p| > 0 && i + |p| <= |s|
    requires s[i..i + |p|] == p && !OccursBefore(s, p, i)
    ensures ReplaceFirst(s, p, r) == s[..i] + r + s[i + |p|..]
  {
    ReplaceFirstSkip(s, p, r, i);
    assert s[i..][..|p|] == p;
    assert s[i..][|p|..] == s[i + |p|..];
  }

  // ---------------------------------------------------------------------
  // Whitespace and strip

  /** Python's `str.isspace()` for one code point. */
  predicate IsSpace(c: char)
  {
    ('\U{9}' <= c <= '\U{D}') || ('\U{1C}' <= c <= ' ') || c == '\U{85}' || c == '\U{A0}' ||
    c == '\U{1680}' || ('\U{2000}' <= c <= '\U{200A}') || c == '\U{2028}' || c == '\U{2029}' ||
    c == '\U{202F}' || c == '\U{205F}' || c == '\U{3000}'
  }

  function TrimStart(s: string): string
  {
    if |s| > 0 && IsSpace(s[0]) then TrimStart(s[1..]) else s
  }

  function TrimEnd(s: string): string
  {
    if |s| > 0 && IsSpace(s[|s| - 1]) then TrimEnd(s[..|s| - 1]) else s
  }

  /** `lstrip` drops exactly the leading whitespace. */
  lemma {:induction false} TrimStartSpec(s: string)
    ensures |TrimStart(s)| <= |s| && TrimStart(s) == s[|s| - |TrimStart(s)|..]
    ensures |TrimStart(s)| > 0 ==> !IsSpace(TrimStart(s)[0])
    ensures forall k :: 0 <= k < |s| - |TrimStart(s)| ==> IsSpace(s[k])
  {
    if |s| > 0 && IsSpace(s[0]) {
      var t := s[1..];
      TrimStartSpec(t);
      var n := |TrimStart(t)|;
      assert TrimStart(s) == TrimStart(t);
      assert t[|t| - n..] == s[|s| - n..];
      forall k | 0 <= k < |s| - n
        ensures IsSpace(s[k])
      {
        if k > 0 {
          assert s[k] == t[k - 1];
        }
      }
    }
  }

  /** `rstrip` drops exactly the trailing whitespace. */
  lemma {:induction false} TrimEndSpec(s: string)
    ensures |TrimEnd(s)| <= |s| && TrimEnd(s) == s[..|TrimEnd(s)|]
    ensures |TrimEnd(s)| > 0 ==> !IsSpace(TrimEnd(s)[|TrimEnd(s)| - 1])
    ensures forall k :: |TrimEnd(s)| <= k < |s| ==> IsSpace(s[k])
  {
    if |s| > 0 && IsSpace(s[|s| - 1]) {
      TrimEndSpec(s[..|s| - 1]);
    }
  }

  /** `s.strip()` */
  function Strip(s: string): string
  {
    TrimEnd(TrimStart(s))
  }

  /** `r` occurs in `s` at `a` with only whitespace before and after it. */
  predicate StrippedAt(s: string, r: string, a: int)
  {
    MatchAt(s, r, a) &&
    (forall k :: 0 <= k < a ==> IsSpace(s[k])) &&
    (forall k :: a + |r| <= k < |s| ==> IsSpace(s[k]))
  }

  /** `strip` removes only leading and trailing whitespace, and all of it:
      what is left is an infix of `s` with whitespace on either side of it
      and none at its ends; it is empty exactly when `s` is all whitespace. */
  lemma StripSpec(s: string)
    ensures exists a :: StrippedAt(s, Strip(s), a)
    ensures IsInfix(Strip(s), s)
    ensures |Strip(s)| > 0 ==> !IsSpace(Strip(s)[0]) && !IsSpace(Strip(s)[|Strip(s)| - 1])
    ensures Strip(s) == "" <==> forall k :: 0 <= k < |s| ==> IsSpace(s[k])
  {
    var a := TrimStart(s);
    var r := TrimEnd(a);
    TrimStartSpec(s);
    TrimEndSpec(a);
    assert r == s[|s| - |a|..][..|r|] == s[|s| - |a|..|s| - |a| + |r|];
    assert forall k :: |s| - |a| <= k < |s| ==> s[k] == a[k - (|s| - |a|)];
    assert MatchAt(s, r, |s| - |a|);
    forall k | |s| - |a| + |r| <= k < |s|
      ensures IsSpace(s[k])
    {
      assert s[k] == a[k - (|s| - |a|)];
    }
    assert StrippedAt(s, Strip(s), |s| - |a|);
  }

  // ---------------------------------------------------------------------
  // Case mapping, restricted to ASCII letters

  predicate IsAsciiLetter(c: char)
  {
    ('a' <= c <= 'z') || ('A' <= c <= 'Z')
  }

  function LowerChar(c: char): char
  {
    if 'A' <= c <= 'Z' then (c as int + 32) as char else c
  }

  function UpperChar(c: char): char
  {
    if 'a' <= c <= 'z' then (c as int - 32) as char else c
  }

  /** `s.lower()` on ASCII letters; every other code point is kept. */
  function Lower(s: string): (r: string)
    ensures |r| == |s|
    ensures forall k :: 0 <= k < |s| ==> r[k] == LowerChar(s[k])
  {
    if |s| == 0 then "" else [LowerChar(s[0])] + Lower(s[1..])
  }

  /** `s.title()` on ASCII letters: a letter that follows a letter is
      lower-cased, any other letter is upper-cased. */
  function TitleCase(s: string): (r: string)
    ensures |r| == |s|
  {
    TitleFrom(s, false)
  }

  function TitleFrom(s: string, prevCased: bool): (r: string)
    ensures |r| == |s|
    ensures |s| > 0 ==> r[0] == (if prevCased then LowerChar(s[0]) else UpperChar(s[0]))
    ensures forall k :: 0 < k < |s| ==>
      r[k] == (if IsAsciiLetter(s[k - 1]) then LowerChar(s[k]) else UpperChar(s[k]))
  {
    if |s| == 0 then ""
    else
      var c := s[0];
      var rest := TitleFrom(s[1..], IsAsciiLetter(c));
      assert forall k :: 1 < k < |s| ==> s[1..][k - 1 - 1] == s[k - 1] && rest[k - 1] == ([c] + rest)[k];
      [if prevCased then LowerChar(c) else UpperChar(c)] + rest
  }
}
