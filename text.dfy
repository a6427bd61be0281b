/** Character classes and string operations of Python's `str` and `re` that the
    report grammars and the projections rely on. */
module Text {
  import opened Wrappers

  /** Python's `str.isspace()` on one character; `\s` in a `str` pattern and
      `str.strip()` use the same set: the ASCII controls TAB to CR and FS to
      US, the space, NEL, NO-BREAK SPACE, OGHAM SPACE MARK, the spaces U+2000 to
      U+200A, the line and paragraph separators, NARROW NO-BREAK SPACE, MEDIUM
      MATHEMATICAL SPACE and IDEOGRAPHIC SPACE. */
  predicate IsSpace(c: char)
  {
    ('\U{9}' <= c <= '\U{D}') || ('\U{1C}' <= c <= '\U{20}') || c == '\U{85}' || c == '\U{A0}'
    || c == '\U{1680}' || ('\U{2000}' <= c <= '\U{200A}') || c == '\U{2028}' || c == '\U{2029}'
    || c == '\U{202F}' || c == '\U{205F}' || c == '\U{3000}'
  }

  /** `\w` restricted to ASCII (letters, digits, underscore). */
  predicate IsWordChar(c: char)
  {
    ('a' <= c <= 'z') || ('A' <= c <= 'Z') || ('0' <= c <= '9') || c == '_'
  }

  /** The class `[\w\.]` used for model, field and xml-id names. */
  predicate IsNameChar(c: char) { IsWordChar(c) || c == '.' }

  predicate AllSpace(s: string) { forall k :: 0 <= k < |s| ==> IsSpace(s[k]) }

  predicate NoSpace(s: string) { forall k :: 0 <= k < |s| ==> !IsSpace(s[k]) }

  predicate AllNameChars(s: string) { forall k :: 0 <= k < |s| ==> IsNameChar(s[k]) }

  /** The end of the whitespace run that starts at `i`: a greedy `\s*`. */
  function SpaceEnd(s: string, i: nat): (j: nat)
    requires i <= |s|
    ensures i <= j <= |s|
    ensures j < |s| ==> !IsSpace(s[j])
    decreases |s| - i
  {
    if i < |s| && IsSpace(s[i]) then SpaceEnd(s, i + 1) else i
  }

  /** The end of the non-whitespace run that starts at `i`: a greedy `\S*`. */
  function NonSpaceEnd(s: string, i: nat): (j: nat)
    requires i <= |s|
    ensures i <= j <= |s|
    ensures j < |s| ==> IsSpace(s[j])
    decreases |s| - i
  {
    if i < |s| && !IsSpace(s[i]) then NonSpaceEnd(s, i + 1) else i
  }

  /** The end of the name run that starts at `i`: a greedy `[\w\.]*`. */
  function NameEnd(s: string, i: nat): (j: nat)
    requires i <= |s|
    ensures i <= j <= |s|
    ensures j < |s| ==> !IsNameChar(s[j])
    decreases |s| - i
  {
    if i < |s| && IsNameChar(s[i]) then NameEnd(s, i + 1) else i
  }

  lemma {:induction false} SpaceEndSpaces(s: string, i: nat)
    requires i <= |s|
    ensures AllSpace(s[i..SpaceEnd(s, i)])
    decreases |s| - i
  {
    if i < |s| && IsSpace(s[i]) {
      SpaceEndSpaces(s, i + 1);
      assert s[i..SpaceEnd(s, i)] == [s[i]] + s[i + 1..SpaceEnd(s, i + 1)];
    }
  }

  lemma {:induction false} NonSpaceEndNonSpaces(s: string, i: nat)
    requires i <= |s|
    ensures NoSpace(s[i..NonSpaceEnd(s, i)])
    decreases |s| - i
  {
    if i < |s| && !IsSpace(s[i]) {
      NonSpaceEndNonSpaces(s, i + 1);
      assert s[i..NonSpaceEnd(s, i)] == [s[i]] + s[i + 1..NonSpaceEnd(s, i + 1)];
    }
  }

  lemma {:induction false} NameEndNames(s: string, i: nat)
    requires i <= |s|
    ensures AllNameChars(s[i..NameEnd(s, i)])
    decreases |s| - i
  {
    if i < |s| && IsNameChar(s[i]) {
      NameEndNames(s, i + 1);
      assert s[i..NameEnd(s, i)] == [s[i]] + s[i + 1..NameEnd(s, i + 1)];
    }
  }

  /** A whitespace run stops exactly where the whitespace does. */
  lemma {:induction false} SpaceEndAt(s: string, i: nat, j: nat)
    requires i <= j <= |s|
    requires forall k :: i <= k < j ==> IsSpace(s[k])
    requires j == |s| || !IsSpace(s[j])
    ensures SpaceEnd(s, i) == j
    decreases j - i
  {
    if i < j {
      SpaceEndAt(s, i + 1, j);
    }
  }

  lemma {:induction false} NonSpaceEndAt(s: string, i: nat, j: nat)
    requires i <= j <= |s|
    requires forall k :: i <= k < j ==> !IsSpace(s[k])
    requires j == |s| || IsSpace(s[j])
    ensures NonSpaceEnd(s, i) == j
    decreases j - i
  {
    if i < j {
      NonSpaceEndAt(s, i + 1, j);
    }
  }

  lemma {:induction false} NameEndAt(s: string, i: nat, j: nat)
    requires i <= j <= |s|
    requires forall k :: i <= k < j ==> IsNameChar(s[k])
    requires j == |s| || !IsNameChar(s[j])
    ensures NameEnd(s, i) == j
    decreases j - i
  {
    if i < j {
      NameEndAt(s, i + 1, j);
    }
  }

  /** The end of `s[..j]` without its trailing whitespace: a backward `\s*`. */
  function TrimmedEnd(s: string, j: nat): (e: nat)
    requires j <= |s|
    ensures e <= j
    decreases j
  {
    if j == 0 || !IsSpace(s[j - 1]) then j else TrimmedEnd(s, j - 1)
  }

  lemma {:induction false} TrimmedEndSpaces(s: string, j: nat)
    requires j <= |s|
    ensures forall k :: TrimmedEnd(s, j) <= k < j ==> IsSpace(s[k])
    ensures TrimmedEnd(s, j) > 0 ==> !IsSpace(s[TrimmedEnd(s, j) - 1])
    decreases j
  {
    if j > 0 && IsSpace(s[j - 1]) {
      TrimmedEndSpaces(s, j - 1);
    }
  }

  /** `s` is `r` with the whitespace runs `s[..i]` and `s[i + |r|..]` around it. */
  predicate Framed(s: string, r: string, i: nat)
  {
    i + |r| <= |s| && s[i..i + |r|] == r && AllSpace(s[..i]) && AllSpace(s[i + |r|..])
  }

  /** Python's `str.strip()` with no argument. */
  function Strip(s: string): string
  {
    var i := SpaceEnd(s, 0);
    var j := TrimmedEnd(s, |s|);
    if j <= i then [] else s[i..j]
  }

  /** What `str.strip()` promises: the result is framed by whitespace in the
      input, neither starts nor ends with whitespace, and is empty exactly for
      an all-whitespace input. */
  lemma StripSpec(s: string)
    ensures var r := Strip(s);
      && (r == [] || (!IsSpace(r[0]) && !IsSpace(r[|r| - 1])))
      && (exists i :: Framed(s, r, i))
      && (r == [] <==> AllSpace(s))
  {
    var i := SpaceEnd(s, 0);
    var j := TrimmedEnd(s, |s|);
    SpaceEndSpaces(s, 0);
    TrimmedEndSpaces(s, |s|);
    if j <= i {
      assert Framed(s, [], 0);
    } else {
      assert Framed(s, s[i..j], i);
      assert !AllSpace(s) by {
        assert !IsSpace(s[j - 1]);
      }
    }
  }

  lemma StripOfStripped(s: string)
    requires s == [] || (!IsSpace(s[0]) && !IsSpace(s[|s| - 1]))
    ensures Strip(s) == s
  {
    if s != [] {
      assert SpaceEnd(s, 0) == 0;
      assert TrimmedEnd(s, |s|) == |s|;
    }
  }

  predicate StartsWith(s: string, prefix: string)
  {
    |prefix| <= |s| && s[..|prefix|] == prefix
  }

  predicate OccursAt(s: string, pat: string, k: int)
  {
    0 <= k && k + |pat| <= |s| && s[k..k + |pat|] == pat
  }

  /** Python's `pat in s` on strings. */
  predicate Contains(s: string, pat: string)
  {
    exists k :: 0 <= k <= |s| && OccursAt(s, pat, k)
  }

  /** Python truthiness of an optional string argument: present and not
      empty. */
  predicate Given(arg: Option<string>)
  {
    arg.Some? && arg.value != ""
  }

  /** The first occurrence of `pat` in `s` at or after `i`. */
  function FindFrom(s: string, pat: string, i: nat): (r: Option<nat>)
    requires i <= |s|
    ensures r.Some? ==> i <= r.value && OccursAt(s, pat, r.value)
    ensures r.Some? ==> forall k :: i <= k < r.value ==> !OccursAt(s, pat, k)
    ensures r.None? ==> forall k :: i <= k ==> !OccursAt(s, pat, k)
    decreases |s| - i
  {
    if OccursAt(s, pat, i) then Some(i)
    else if i == |s| then None
    else FindFrom(s, pat, i + 1)
  }

  predicate EndsWith(s: string, suffix: string)
  {
    |suffix| <= |s| && s[|s| - |suffix|..] == suffix
  }

  /** What follows position `i` splits into `a` then `b`. */
  lemma SuffixSplit(s: string, i: nat, a: string, b: string)
    requires i <= |s| && s[i..] == a + b
    ensures i + |a| <= |s| && s[i..i + |a|] == a && s[i + |a|..] == b
  {
    assert s[i..][..|a|] == a;
    assert s[i..][|a|..] == b;
  }

  /** The first and the last character of a concatenation. */
  lemma ConcatEnds(a: string, b: string)
    ensures a != [] ==> (a + b)[0] == a[0]
    ensures b != [] ==> (a + b)[|a + b| - 1] == b[|b| - 1]
    ensures b == [] ==> a + b == a
  {
  }

  /** A sequence is the concatenation of its slices at `i`, `j` and `k`. */
  lemma Join4(s: string, i: nat, j: nat, k: nat)
    requires i <= j <= k <= |s|
    ensures s == s[..i] + (s[i..j] + (s[j..k] + s[k..]))
  {
    assert s[i..] == s[i..j] + s[j..];
    assert s[j..] == s[j..k] + s[k..];
  }

  /** Where `a`, `m` and `c` sit in `a + (m + (c + rest))`. */
  lemma Pieces3(s: string, a: string, m: string, c: string, rest: string)
    requires s == a + (m + (c + rest))
    ensures StartsWith(s, a) && |a| + |m| + |c| <= |s|
    ensures s[|a|..|a| + |m|] == m && OccursAt(s, c, |a| + |m|)
  {
    SuffixSplit(s, 0, a, m + (c + rest));
    assert s[..|a|] == s[0..|a|];
    SuffixSplit(s, |a|, m, c + rest);
    SuffixSplit(s, |a| + |m|, c, rest);
  }

  /** What follows position `i` is the character `c` then `b`. */
  lemma HeadSplit(s: string, i: nat, c: char, b: string)
    requires i <= |s| && s[i..] == [c] + b
    ensures i < |s| && s[i] == c && s[i + 1..] == b
  {
    assert s[i] == s[i..][0];
    assert s[i + 1..] == s[i..][1..];
  }

  /** The characters of a slice are those of the sequence it equals. */
  lemma SliceChars(s: string, i: nat, a: string)
    requires i + |a| <= |s| && s[i..i + |a|] == a
    ensures forall k :: i <= k < i + |a| ==> s[k] == a[k - i]
  {
    forall k | i <= k < i + |a|
      ensures s[k] == a[k - i]
    {
      assert s[k] == s[i..i + |a|][k - i];
    }
  }

  /** Name characters are never whitespace. */
  lemma NameCharNotSpace(c: char)
    requires IsNameChar(c)
    ensures !IsSpace(c)
  {
  }

  /** No whitespace run starts at `i`. */
  lemma NoSpacesAt(s: string, i: nat)
    requires i <= |s| && (i == |s| || !IsSpace(s[i]))
    ensures SpaceEnd(s, i) == i
  {
  }

  /** The first occurrence at or after `i` is the one at `q`. */
  lemma {:induction false} FindFromAt(s: string, pat: string, i: nat, q: nat)
    requires i <= q && OccursAt(s, pat, q)
    requires forall k :: i <= k < q ==> !OccursAt(s, pat, k)
    ensures FindFrom(s, pat, i) == Some(q)
    decreases q - i
  {
    if i < q {
      FindFromAt(s, pat, i + 1, q);
    }
  }
}
