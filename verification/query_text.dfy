/** The key under which popular queries are counted: the query lower-cased
    and with surrounding white space removed, as JavaScript's
    `toLowerCase().trim()` computes it. */
module QueryText {

  /** JavaScript's WhiteSpace and LineTerminator characters, the set `trim`
      removes. */
  predicate IsSpace(c: char)
  {
    || c == '\t' || c == '\n' || c == '\U{0B}' || c == '\U{0C}' || c == '\r' || c == ' '
    || c == '\U{A0}' || c == '\U{1680}' || ('\U{2000}' <= c <= '\U{200A}')
    || c == '\U{2028}' || c == '\U{2029}' || c == '\U{202F}' || c == '\U{205F}'
    || c == '\U{3000}' || c == '\U{FEFF}'
  }

  predicate AllSpace(s: string)
  {
    forall i :: 0 <= i < |s| ==> IsSpace(s[i])
  }

  lemma AllSpaceAppend(a: string, b: string)
    requires AllSpace(a) && AllSpace(b)
    ensures AllSpace(a + b)
  {
    forall i | 0 <= i < |a + b|
      ensures IsSpace((a + b)[i])
    {
      if i < |a| {
        assert (a + b)[i] == a[i];
      } else {
        assert (a + b)[i] == b[i - |a|];
      }
    }
  }

  function LowerChar(c: char): char
  {
    if 'A' <= c <= 'Z' then (c as int - 'A' as int + 'a' as int) as char else c
  }

  function Lower(s: string): (r: string)
    ensures |r| == |s|
    ensures forall i :: 0 <= i < |s| ==> r[i] == LowerChar(s[i])
  {
    seq(|s|, i requires 0 <= i < |s| => LowerChar(s[i]))
  }

  /** Drops leading white space: what is left is a suffix of `s` that does
      not start with white space, and everything dropped was white space. */
  function TrimStart(s: string): (r: string)
    ensures |r| <= |s| && r == s[|s| - |r|..]
    ensures AllSpace(s[..|s| - |r|])
    ensures |r| > 0 ==> !IsSpace(r[0])
    decreases |s|
  {
    if |s| > 0 && IsSpace(s[0]) then
      var r := TrimStart(s[1..]);
      assert s[1..][|s| - 1 - |r|..] == s[|s| - |r|..];
      assert s[..|s| - |r|] == [s[0]] + s[1..][..|s| - 1 - |r|];
      AllSpaceAppend([s[0]], s[1..][..|s| - 1 - |r|]);
      r
    else s
  }

  /** Drops trailing white space: what is left is a prefix of `s` that does
      not end with white space, and everything dropped was white space. */
  function TrimEnd(s: string): (r: string)
    ensures |r| <= |s| && r == s[..|r|]
    ensures AllSpace(s[|r|..])
    ensures |r| > 0 ==> !IsSpace(r[|r| - 1])
    decreases |s|
  {
    if |s| > 0 && IsSpace(s[|s| - 1]) then
      var r := TrimEnd(s[..|s| - 1]);
      assert s[..|s| - 1][..|r|] == s[..|r|];
      assert s[|r|..] == s[..|s| - 1][|r|..] + [s[|s| - 1]];
      AllSpaceAppend(s[..|s| - 1][|r|..], [s[|s| - 1]]);
      r
    else s
  }

  /** `r` is `s` without its leading `lo` characters and its trailing ones,
      all of which are white space, and `r` neither starts nor ends with
      white space. */
  predicate TrimmedAt(s: string, lo: int, r: string)
  {
    && 0 <= lo && lo + |r| <= |s| && r == s[lo..lo + |r|]
    && AllSpace(s[..lo]) && AllSpace(s[lo + |r|..])
    && (|r| > 0 ==> !IsSpace(r[0]) && !IsSpace(r[|r| - 1]))
  }

  /** JavaScript's `trim`: the part of `s` between its leading and its
      trailing white space. */
  function Trim(s: string): (r: string)
    ensures TrimmedAt(s, |s| - |TrimStart(s)|, r)
  {
    TrimIsTrimmedAt(s);
    TrimEnd(TrimStart(s))
  }

  lemma TrimIsTrimmedAt(s: string)
    ensures TrimmedAt(s, |s| - |TrimStart(s)|, TrimEnd(TrimStart(s)))
  {
    TrimmedAtOf(s, TrimStart(s), TrimEnd(TrimStart(s)));
  }

  /** Trimming the back of what is left after trimming the front. */
  lemma TrimmedAtOf(s: string, front: string, r: string)
    requires |front| <= |s| && front == s[|s| - |front|..]
    requires AllSpace(s[..|s| - |front|])
    requires |front| > 0 ==> !IsSpace(front[0])
    requires |r| <= |front| && r == front[..|r|]
    requires AllSpace(front[|r|..])
    requires |r| > 0 ==> !IsSpace(r[|r| - 1])
    ensures TrimmedAt(s, |s| - |front|, r)
  {
    SliceOfSuffix(s, front, r);
    PrefixKeepsFirst(front, r);
  }

  /** A slice taken from the front of a suffix is a slice of the whole. */
  lemma SliceOfSuffix(s: string, front: string, r: string)
    requires |front| <= |s| && front == s[|s| - |front|..]
    requires |r| <= |front| && r == front[..|r|] && AllSpace(front[|r|..])
    ensures var lo := |s| - |front|;
      r == s[lo..lo + |r|] && AllSpace(s[lo + |r|..])
  {
    var lo := |s| - |front|;
    assert s[lo + |r|..] == front[|r|..];
  }

  /** A non-empty prefix starts where the whole does. */
  lemma PrefixKeepsFirst(front: string, r: string)
    requires |r| <= |front| && r == front[..|r|]
    requires |front| > 0 ==> !IsSpace(front[0])
    ensures |r| > 0 ==> !IsSpace(r[0])
  {
    if |r| > 0 {
      assert r[0] == front[0];
    }
  }

  /** The key a query is counted under: lower-cased, then trimmed. It has
      no surrounding white space and no upper-case ASCII letter. */
  function Normalize(q: string): (k: string)
    ensures |k| <= |q|
    ensures |k| > 0 ==> !IsSpace(k[0]) && !IsSpace(k[|k| - 1])
    ensures IsLowerCase(k)
  {
    var l := Lower(q);
    var front := TrimStart(l);
    LowerIsLowerCase(q);
    SliceIsLowerCase(l, |l| - |front|, |l|);
    SliceIsLowerCase(front, 0, |TrimEnd(front)|);
    Trim(l)
  }

  /** A key is its query lower-cased, less the white space at both ends:
      what is dropped in front and behind is white space, and what is
      kept is the slice between, with no white space at either end. */
  lemma NormalizeIsTrimmedLower(q: string)
    ensures TrimmedAt(Lower(q), |Lower(q)| - |TrimStart(Lower(q))|, Normalize(q))
  {
  }

  lemma {:induction false} TrimStartAfterSpace(pre: string, s: string)
    requires AllSpace(pre)
    ensures TrimStart(pre + s) == TrimStart(s)
    decreases |pre|
  {
    if |pre| > 0 {
      assert (pre + s)[0] == pre[0] && IsSpace(pre[0]);
      assert (pre + s)[1..] == pre[1..] + s;
      assert AllSpace(pre[1..]) by {
        forall i | 0 <= i < |pre| - 1 ensures IsSpace(pre[1..][i]) {
          assert pre[1..][i] == pre[i + 1];
        }
      }
      TrimStartAfterSpace(pre[1..], s);
    } else {
      assert pre + s == s;
    }
  }

  lemma {:induction false} TrimEndBeforeSpace(s: string, post: string)
    requires AllSpace(post)
    ensures TrimEnd(s + post) == TrimEnd(s)
    decreases |post|
  {
    if |post| > 0 {
      assert (s + post)[|s + post| - 1] == post[|post| - 1] && IsSpace(post[|post| - 1]);
      assert (s + post)[..|s + post| - 1] == s + post[..|post| - 1];
      TrimEndBeforeSpace(s, post[..|post| - 1]);
    } else {
      assert s + post == s;
    }
  }

  /** Trailing text does not change where leading white space ends, unless
      everything before it is white space. */
  lemma {:induction false} TrimStartAppend(s: string, post: string)
    requires |TrimStart(s)| > 0
    ensures TrimStart(s + post) == TrimStart(s) + post
    decreases |s|
  {
    if IsSpace(s[0]) {
      assert (s + post)[1..] == s[1..] + post;
      TrimStartAppend(s[1..], post);
    }
  }

  lemma {:induction false} TrimOfAllSpace(s: string)
    requires AllSpace(s)
    ensures TrimStart(s) == []
    decreases |s|
  {
    if |s| > 0 {
      TrimOfAllSpace(s[1..]);
    }
  }

  /** Trailing white space does not change the trimmed form. */
  lemma TrimIgnoresTrailing(s: string, post: string)
    requires AllSpace(post)
    ensures TrimEnd(TrimStart(s + post)) == Trim(s)
  {
    if |TrimStart(s)| > 0 {
      TrimStartAppend(s, post);
      TrimEndBeforeSpace(TrimStart(s), post);
    } else {
      TrimOfBlank(s, post);
    }
  }

  /** A query that is all white space, padded with more, trims to nothing. */
  lemma TrimOfBlank(s: string, post: string)
    requires AllSpace(post) && |TrimStart(s)| == 0
    ensures TrimStart(s + post) == [] && Trim(s) == []
  {
    assert s == s[..|s| - |TrimStart(s)|];
    AllSpaceAppend(s, post);
    TrimOfAllSpace(s + post);
  }

  /** White space around a query does not change its trimmed form. */
  lemma TrimIgnoresPadding(pre: string, s: string, post: string)
    requires AllSpace(pre) && AllSpace(post)
    ensures Trim(pre + s + post) == Trim(s)
  {
    calc {
      Trim(pre + s + post);
      { assert pre + s + post == pre + (s + post); }
      TrimEnd(TrimStart(pre + (s + post)));
      { TrimStartAfterSpace(pre, s + post); }
      TrimEnd(TrimStart(s + post));
      { TrimIgnoresTrailing(s, post); }
      Trim(s);
    }
  }

  lemma LowerKeepsSpace(s: string)
    requires AllSpace(s)
    ensures Lower(s) == s
  {
  }

  /** Queries that differ only in letter case and in surrounding white space
      share one key. */
  lemma SameKeyUpToCaseAndPadding(pre: string, s: string, post: string, t: string)
    requires AllSpace(pre) && AllSpace(post)
    requires Lower(s) == Lower(t)
    ensures Normalize(pre + s + post) == Normalize(t)
  {
    assert Lower(pre + s + post) == Lower(pre) + Lower(s) + Lower(post);
    LowerKeepsSpace(pre);
    LowerKeepsSpace(post);
    TrimIgnoresPadding(pre, Lower(s), post);
  }

  /** Trimming a trimmed string changes nothing. */
  lemma TrimIdempotent(x: string)
    ensures Trim(Trim(x)) == Trim(x)
  {
    var y := Trim(x);
    if |y| > 0 {
      assert y[0] == TrimStart(x)[0];
      assert TrimStart(y) == y;
    }
  }

  predicate IsLowerCase(s: string)
  {
    forall i :: 0 <= i < |s| ==> LowerChar(s[i]) == s[i]
  }

  lemma LowerCharIdempotent(c: char)
    ensures LowerChar(LowerChar(c)) == LowerChar(c)
  {
  }

  lemma LowerIsLowerCase(s: string)
    ensures IsLowerCase(Lower(s))
  {
    forall i | 0 <= i < |s|
      ensures LowerChar(Lower(s)[i]) == Lower(s)[i]
    {
      LowerCharIdempotent(s[i]);
    }
  }

  lemma SliceIsLowerCase(s: string, lo: int, hi: int)
    requires IsLowerCase(s) && 0 <= lo <= hi <= |s|
    ensures IsLowerCase(s[lo..hi])
  {
    forall i | 0 <= i < hi - lo
      ensures LowerChar(s[lo..hi][i]) == s[lo..hi][i]
    {
      assert s[lo..hi][i] == s[lo + i];
    }
  }

  /** Every character of a key is already lower-case. */
  lemma KeyIsLowerCase(q: string)
    ensures Lower(Normalize(q)) == Normalize(q)
  {
    var l := Lower(q);
    var front := TrimStart(l);
    LowerIsLowerCase(q);
    SliceIsLowerCase(l, |l| - |front|, |l|);
    SliceIsLowerCase(front, 0, |TrimEnd(front)|);
  }

  /** A key is already lower-case and trimmed. */
  lemma NormalizeIdempotent(q: string)
    ensures Normalize(Normalize(q)) == Normalize(q)
  {
    KeyIsLowerCase(q);
    TrimIdempotent(Lower(q));
  }
}
