/** The Python string operations the document builder calls
    (`str.isspace`, `str.strip()`, `sep.join(xs)`), and `Split`, which the
    builder never calls: it only serves to read a finished document back
    line by line. */
module Text {

  /** Python's `str.isspace()` for one character: the characters that
      CPython's Unicode database gives bidirectional class WS, B or S, or
      category Zs. */
  predicate IsSpace(c: char) {
    ('\t' <= c <= '\r') || ('\U{1C}' <= c <= '\U{1F}') || c == ' '
    || c == '\U{85}' || c == '\U{A0}' || c == '\U{1680}'
    || ('\U{2000}' <= c <= '\U{200A}') || c == '\U{2028}' || c == '\U{2029}'
    || c == '\U{202F}' || c == '\U{205F}' || c == '\U{3000}'
  }

  predicate AllSpace(s: string) {
    forall i :: 0 <= i < |s| ==> IsSpace(s[i])
  }

  /** Neither the first nor the last character is whitespace. */
  predicate Trimmed(s: string) {
    s == [] || (!IsSpace(s[0]) && !IsSpace(s[|s| - 1]))
  }

  /** `s.lstrip()`. */
  function TrimLeft(s: string): (r: string)
    ensures |r| <= |s|
    ensures r == [] || !IsSpace(r[0])
  {
    if |s| > 0 && IsSpace(s[0]) then TrimLeft(s[1..]) else s
  }

  /** `s.rstrip()`. */
  function TrimRight(s: string): (r: string)
    ensures |r| <= |s|
    ensures r == [] || !IsSpace(r[|r| - 1])
  {
    if |s| > 0 && IsSpace(s[|s| - 1]) then TrimRight(s[..|s| - 1]) else s
  }

  /** `s.strip()` with no argument. */
  function Strip(s: string): (r: string)
    ensures |r| <= |s|
    ensures r == [] || !IsSpace(r[|r| - 1])
  {
    TrimRight(TrimLeft(s))
  }

  /** `TrimLeft` drops exactly the leading whitespace run, of length `k`. */
  lemma {:induction false} TrimLeftSpec(s: string) returns (k: nat)
    ensures k <= |s| && TrimLeft(s) == s[k..]
    ensures AllSpace(s[..k])
    ensures k == |s| || !IsSpace(s[k])
  {
    if |s| > 0 && IsSpace(s[0]) {
      var k' := TrimLeftSpec(s[1..]);
      k := k' + 1;
      assert s[..k] == [s[0]] + s[1..][..k'];
      assert s[1..][k'..] == s[k..];
    } else {
      k := 0;
    }
  }

  /** `TrimRight` keeps exactly the prefix of length `k` before the
      trailing whitespace run. */
  lemma {:induction false} TrimRightSpec(s: string) returns (k: nat)
    ensures k <= |s| && TrimRight(s) == s[..k]
    ensures AllSpace(s[k..])
    ensures k == 0 || !IsSpace(s[k - 1])
  {
    if |s| > 0 && IsSpace(s[|s| - 1]) {
      var s' := s[..|s| - 1];
      k := TrimRightSpec(s');
      assert s[k..] == s'[k..] + [s[|s| - 1]];
      assert s'[..k] == s[..k];
    } else {
      k := |s|;
      assert s[k..] == [];
    }
  }

  /** `Strip(s)` is trimmed, and it is what is left once a whitespace
      prefix and a whitespace suffix are cut off. */
  lemma StripDecomposes(s: string) returns (pre: string, post: string)
    ensures s == pre + Strip(s) + post
    ensures AllSpace(pre) && AllSpace(post)
    ensures Trimmed(Strip(s))
  {
    var i := TrimLeftSpec(s);
    var t := s[i..];
    var j := TrimRightSpec(t);
    var r := t[..j];
    pre := s[..i];
    post := t[j..];
    assert t == r + post;
    assert s == pre + t;
    assert r != [] ==> r[0] == s[i] && r[|r| - 1] == t[j - 1];
  }

  /** Stripping leaves nothing exactly when the string is all whitespace. */
  lemma StripEmptyIff(s: string)
    ensures Strip(s) == [] <==> AllSpace(s)
  {
    var pre, post := StripDecomposes(s);
    if Strip(s) == [] {
      assert s == pre + post;
      forall i | 0 <= i < |s| ensures IsSpace(s[i]) {
        if i < |pre| { assert s[i] == pre[i]; } else { assert s[i] == post[i - |pre|]; }
      }
    }
    if AllSpace(s) {
      assert s == s + [] + [];
      StripUnique(s, s, [], []);
    }
  }

  /** The whitespace run at the front of `pre + mid` is exactly `pre`
      when `mid` does not start with whitespace. */
  lemma {:induction false} TrimLeftPrefix(pre: string, mid: string)
    requires AllSpace(pre)
    requires mid == [] || !IsSpace(mid[0])
    ensures TrimLeft(pre + mid) == mid
  {
    if pre != [] {
      assert (pre + mid)[1..] == pre[1..] + mid;
      TrimLeftPrefix(pre[1..], mid);
    } else {
      assert pre + mid == mid;
    }
  }

  lemma {:induction false} TrimRightSuffix(mid: string, post: string)
    requires AllSpace(post)
    requires mid == [] || !IsSpace(mid[|mid| - 1])
    ensures TrimRight(mid + post) == mid
  {
    if post != [] {
      assert (mid + post)[..|mid + post| - 1] == mid + post[..|post| - 1];
      TrimRightSuffix(mid, post[..|post| - 1]);
    } else {
      assert mid + post == mid;
    }
  }

  /** Any split of `s` into whitespace, a trimmed middle and whitespace
      determines `Strip(s)`: it is that middle. */
  lemma StripUnique(s: string, pre: string, mid: string, post: string)
    requires s == pre + mid + post
    requires AllSpace(pre) && AllSpace(post) && Trimmed(mid)
    ensures Strip(s) == mid
  {
    if mid == [] {
      assert s == pre + post;
      assert AllSpace(s) by {
        forall i | 0 <= i < |s| ensures IsSpace(s[i]) {
          if i < |pre| { assert s[i] == pre[i]; } else { assert s[i] == post[i - |pre|]; }
        }
      }
      var k := TrimLeftSpec(s);
      assert k == |s|;
      assert TrimLeft(s) == [];
    } else {
      assert s == pre + (mid + post);
      assert (mid + post)[0] == mid[0];
      TrimLeftPrefix(pre, mid + post);
      TrimRightSuffix(mid, post);
    }
  }

  /** Stripping twice is stripping once. */
  lemma StripIdempotent(s: string)
    ensures Strip(Strip(s)) == Strip(s)
  {
    var pre, post := StripDecomposes(s);
    var m := Strip(s);
    assert m == [] + m + [];
    StripUnique(m, [], m, []);
  }

  /** A character absent from `s` is absent from `Strip(s)`. */
  lemma StripKeepsOut(s: string, c: char)
    requires c !in s
    ensures c !in Strip(s)
  {
    var pre, post := StripDecomposes(s);
  }

  /** `sep.join(xs)`. */
  function Join(sep: string, xs: seq<string>): (r: string)
    ensures |xs| >= 2 ==> |r| >= |sep|
  {
    if |xs| == 0 then ""
    else if |xs| == 1 then xs[0]
    else xs[0] + sep + Join(sep, xs[1..])
  }

  /** Joining one more element appends the separator and that element. */
  lemma {:induction false} JoinSnoc(sep: string, xs: seq<string>, x: string)
    requires |xs| > 0
    ensures Join(sep, xs + [x]) == Join(sep, xs) + sep + x
  {
    if |xs| == 1 {
      assert (xs + [x])[1..] == [x];
    } else {
      assert (xs + [x])[1..] == xs[1..] + [x];
      JoinSnoc(sep, xs[1..], x);
    }
  }

  /** With a non-empty separator the join is empty exactly when there is
      nothing to join or a single empty element. */
  lemma JoinEmptyIff(sep: string, xs: seq<string>)
    requires sep != ""
    ensures Join(sep, xs) == "" <==> |xs| == 0 || (|xs| == 1 && xs[0] == "")
  {
    if |xs| >= 2 {
      assert |Join(sep, xs)| >= |sep|;
    }
  }

  /** A character found in no element and not in the separator is not in
      the join. */
  lemma {:induction false} JoinKeepsOut(sep: string, xs: seq<string>, c: char)
    requires c !in sep
    requires forall i :: 0 <= i < |xs| ==> c !in xs[i]
    ensures c !in Join(sep, xs)
  {
    if |xs| >= 2 {
      JoinKeepsOut(sep, xs[1..], c);
    }
  }

  /** The pieces between occurrences of `c`, always at least one, as
      Python's `s.split(c)` gives them. Used only to read documents back. */
  function Split(s: string, c: char): (r: seq<string>)
    ensures |r| > 0
  {
    if |s| == 0 then [""]
    else if s[0] == c then [""] + Split(s[1..], c)
    else
      var t := Split(s[1..], c);
      [[s[0]] + t[0]] + t[1..]
  }

  lemma {:induction false} SplitNoSeparator(w: string, c: char)
    requires c !in w
    ensures Split(w, c) == [w]
  {
    if |w| > 0 {
      SplitNoSeparator(w[1..], c);
      assert [w[0]] + w[1..] == w;
    }
  }

  lemma {:induction false} SplitAfterPiece(w: string, rest: string, c: char)
    requires c !in w
    ensures Split(w + [c] + rest, c) == [w] + Split(rest, c)
  {
    var s := w + [c] + rest;
    if |w| == 0 {
      assert s[1..] == rest;
    } else {
      assert s[1..] == w[1..] + [c] + rest;
      SplitAfterPiece(w[1..], rest, c);
      assert [w[0]] + w[1..] == w;
    }
  }

  /** Splitting a join on its one-character separator gives the pieces
      back, when no piece contains that character. */
  lemma {:induction false} SplitJoin(xs: seq<string>, c: char)
    requires |xs| > 0
    requires forall i :: 0 <= i < |xs| ==> c !in xs[i]
    ensures Split(Join([c], xs), c) == xs
  {
    if |xs| == 1 {
      SplitNoSeparator(xs[0], c);
    } else {
      SplitJoin(xs[1..], c);
      SplitAfterPiece(xs[0], Join([c], xs[1..]), c);
      assert [xs[0]] + xs[1..] == xs;
    }
  }

  lemma JoinConsHead(sep: string, a: string, xs: seq<string>)
    requires |xs| > 0
    ensures Join(sep, [a + xs[0]] + xs[1..]) == a + Join(sep, xs)
  {
    var ys := [a + xs[0]] + xs[1..];
    if |xs| > 1 {
      assert ys[1..] == xs[1..];
    }
  }

  /** Joining the pieces of a split with the same character gives the
      string back. */
  lemma {:induction false} JoinSplit(s: string, c: char)
    ensures Join([c], Split(s, c)) == s
  {
    if |s| > 0 {
      var t := Split(s[1..], c);
      JoinSplit(s[1..], c);
      if s[0] == c {
        assert ([""] + t)[1..] == t;
        assert [s[0]] + s[1..] == s;
      } else {
        JoinConsHead([c], [s[0]], t);
        assert [s[0]] + s[1..] == s;
      }
    }
  }
}
