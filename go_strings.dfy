/**
 The few functions of Go's `strings` package that the env-file parser relies
 on: `TrimSpace`, `HasPrefix`, `Index` and `SplitN(s, sep, 2)`. A Go string is
 modelled as the sequence of its Unicode scalar values.
 */
module GoStrings {

  /** Go's `unicode.IsSpace`: the Latin-1 spaces (tab, line feed, vertical tab,
      form feed, carriage return, space, NEL, NBSP) and the remaining code
      points with the Unicode White_Space property. */
  predicate IsSpace(c: char)
    ensures IsSpace(c) ==> c != '=' && c != '#'
  {
    || c == ' ' || c == '\t' || c == '\n' || c == '\U{B}' || c == '\U{C}' || c == '\r'
    || c == '\U{85}' || c == '\U{A0}' || c == '\U{1680}'
    || ('\U{2000}' <= c <= '\U{200A}')
    || c == '\U{2028}' || c == '\U{2029}' || c == '\U{202F}' || c == '\U{205F}' || c == '\U{3000}'
  }

  /** Within Latin-1, the whitespace characters are exactly tab, line feed,
      vertical tab, form feed, carriage return, space, NEL and NBSP. */
  lemma IsSpaceLatin1(c: char)
    requires c <= '\U{FF}'
    ensures IsSpace(c) <==> c in "\t\n\U{B}\U{C}\r \U{85}\U{A0}"
  {
    var latin1 := "\t\n\U{B}\U{C}\r \U{85}\U{A0}";
    if IsSpace(c) {
      assert c == latin1[0] || c == latin1[1] || c == latin1[2] || c == latin1[3]
          || c == latin1[4] || c == latin1[5] || c == latin1[6] || c == latin1[7];
    }
  }

  predicate AllSpace(s: string) {
    forall i :: 0 <= i < |s| ==> IsSpace(s[i])
  }

  /** Neither starts nor ends with whitespace. */
  predicate IsTrimmed(s: string) {
    s == [] || (!IsSpace(s[0]) && !IsSpace(s[|s| - 1]))
  }

  /** The number of whitespace characters `s` starts with. */
  function LeadingSpace(s: string): (n: nat)
    ensures n <= |s|
  {
    if s != [] && IsSpace(s[0]) then 1 + LeadingSpace(s[1..]) else 0
  }

  /** `strings.TrimSpace`: cuts the whitespace from the front, then from the
      back, of `s`. */
  function TrimSpace(s: string): (r: string)
    ensures IsTrimmed(r)
    ensures |r| <= |s|
  {
    if s == [] then []
    else if IsSpace(s[0]) then TrimSpace(s[1..])
    else if IsSpace(s[|s| - 1]) then TrimSpace(s[..|s| - 1])
    else s
  }

  /** What `TrimSpace` leaves is the slice of `s` between its leading and its
      trailing whitespace. */
  lemma {:induction false} TrimSpaceSlice(s: string)
    ensures var r, i := TrimSpace(s), LeadingSpace(s);
            && i + |r| <= |s| && r == s[i..i + |r|]
            && AllSpace(s[..i]) && AllSpace(s[i + |r|..])
    decreases |s|, 1
  {
    if s == [] {
    } else if IsSpace(s[0]) {
      TrimSpaceSliceFront(s);
    } else if IsSpace(s[|s| - 1]) {
      TrimSpaceSliceBack(s);
    }
  }

  lemma {:induction false} TrimSpaceSliceFront(s: string)
    requires s != [] && IsSpace(s[0])
    ensures var r, i := TrimSpace(s), LeadingSpace(s);
            && i + |r| <= |s| && r == s[i..i + |r|]
            && AllSpace(s[..i]) && AllSpace(s[i + |r|..])
    decreases |s|, 0
  {
    TrimSpaceSlice(s[1..]);
    var r, i := TrimSpace(s), LeadingSpace(s);
    assert s[..i] == [s[0]] + s[1..][..i - 1];
    assert s[i..i + |r|] == s[1..][i - 1..i - 1 + |r|];
    assert s[i + |r|..] == s[1..][i - 1 + |r|..];
  }

  lemma {:induction false} TrimSpaceSliceBack(s: string)
    requires s != [] && !IsSpace(s[0]) && IsSpace(s[|s| - 1])
    ensures var r, i := TrimSpace(s), LeadingSpace(s);
            && i + |r| <= |s| && r == s[i..i + |r|]
            && AllSpace(s[..i]) && AllSpace(s[i + |r|..])
    decreases |s|, 0
  {
    var init := s[..|s| - 1];
    TrimSpaceSlice(init);
    var r := TrimSpace(s);
    if init != [] {
      assert init[0] == s[0];
    }
    assert LeadingSpace(init) == 0;
    assert s[|r|..] == init[|r|..] + [s[|s| - 1]];
  }

  /** Whitespace at either end does not change what `TrimSpace` leaves of a
      non-empty trimmed core. */
  lemma {:induction false} TrimSpaceOfPadded(pre: string, core: string, post: string)
    requires AllSpace(pre) && AllSpace(post) && IsTrimmed(core) && core != []
    ensures TrimSpace(pre + core + post) == core
  {
    var s := pre + core + post;
    if pre != [] {
      assert s[0] == pre[0];
      assert s[1..] == pre[1..] + core + post;
      TrimSpaceOfPadded(pre[1..], core, post);
    } else if post != [] {
      var n := |post| - 1;
      assert s[0] == core[0];
      assert s[|s| - 1] == post[n];
      assert s[..|s| - 1] == pre + core + post[..n];
      TrimSpaceOfPadded(pre, core, post[..n]);
    } else {
      assert s == core;
    }
  }

  /** A string of whitespace only trims to the empty string. */
  lemma {:induction false} TrimSpaceOfSpace(s: string)
    requires AllSpace(s)
    ensures TrimSpace(s) == []
  {
    if s != [] {
      TrimSpaceOfSpace(s[1..]);
    }
  }

  /** Trimming leaves a trimmed string as it is. */
  lemma TrimSpaceOfTrimmed(s: string)
    requires IsTrimmed(s)
    ensures TrimSpace(s) == s
  {
    if s != [] {
      assert s == [] + s + [];
      TrimSpaceOfPadded([], s, []);
    }
  }

  /** Trimming twice is trimming once. */
  lemma TrimSpaceIdempotent(s: string)
    ensures TrimSpace(TrimSpace(s)) == TrimSpace(s)
  {
    TrimSpaceOfTrimmed(TrimSpace(s));
  }

  /** A whitespace character appended to `s` is trimmed away again. */
  lemma {:induction false} TrimSpaceDropsTrailing(s: string, c: char)
    requires IsSpace(c)
    ensures TrimSpace(s + [c]) == TrimSpace(s)
  {
    var t := s + [c];
    if s == [] {
      assert t[1..] == [];
    } else if IsSpace(s[0]) {
      assert t[0] == s[0] && t[1..] == s[1..] + [c];
      TrimSpaceDropsTrailing(s[1..], c);
    } else {
      assert t[0] == s[0] && t[..|t| - 1] == s;
    }
  }

  /** `strings.HasPrefix`. */
  predicate HasPrefix(s: string, prefix: string)
    ensures HasPrefix(s, prefix) <==>
              |prefix| <= |s| && forall i :: 0 <= i < |prefix| ==> s[i] == prefix[i]
  {
    |prefix| <= |s| && s[..|prefix|] == prefix
  }

  /** `strings.Index` for a one-character substring: the position of the
      first `c` in `s`, or -1 when there is none. */
  function Index(s: string, c: char): (i: int)
    ensures -1 <= i < |s|
    ensures i == -1 <==> c !in s
    ensures 0 <= i ==> s[i] == c && c !in s[..i]
  {
    if s == [] then -1
    else if s[0] == c then 0
    else
      var j := Index(s[1..], c);
      if j == -1 then -1
      else
        assert s[..j + 1] == [s[0]] + s[1..][..j];
        j + 1
  }

  /** `strings.SplitN(s, string(sep), 2)`: one part when `sep` does not occur
      in `s`, otherwise the text before the first `sep` and everything after it. */
  function SplitN2(s: string, sep: char): (parts: seq<string>)
    ensures |parts| == 1 || |parts| == 2
    ensures |parts| == 1 <==> sep !in s
    ensures |parts| == 1 ==> parts[0] == s
    ensures |parts| == 2 ==> s == parts[0] + [sep] + parts[1] && sep !in parts[0]
  {
    var i := Index(s, sep);
    if i < 0 then [s]
    else
      assert s == s[..i] + [sep] + s[i + 1..];
      [s[..i], s[i + 1..]]
  }
}
