/** String and path helpers with the behaviour of the Python library calls the
    two rewriters use: str.isspace, the `\w` class, str.lower, str.strip,
    str.split, str.join, the `in` substring test, os.path.basename and
    os.path.splitext (POSIX flavour). */
module Text {

  datatype Option<T> = None | Some(value: T)

  /** Python's str.isspace(), which is also what `\s` matches and what
      str.split() and str.strip() treat as whitespace. */
  predicate IsSpace(c: char) {
    c == ' ' || ('\t' <= c <= '\r') || ('\U{1C}' <= c <= '\U{1F}')
    || c == '\U{85}' || c == '\U{A0}' || c == '\U{1680}'
    || ('\U{2000}' <= c <= '\U{200A}') || c == '\U{2028}' || c == '\U{2029}'
    || c == '\U{202F}' || c == '\U{205F}' || c == '\U{3000}'
  }

  /** The `\w` class, restricted to ASCII. */
  predicate IsWordChar(c: char) {
    ('a' <= c <= 'z') || ('A' <= c <= 'Z') || ('0' <= c <= '9') || c == '_'
  }

  /** str.lower() on one character, restricted to ASCII. */
  function LowerChar(c: char): char {
    if 'A' <= c <= 'Z' then (c as int + 32) as char else c
  }

  function Lower(s: string): (r: string)
    ensures |r| == |s|
    ensures forall i {:trigger r[i]} :: 0 <= i < |s| ==> r[i] == LowerChar(s[i])
  {
    if s == [] then [] else [LowerChar(s[0])] + Lower(s[1..])
  }

  predicate StartsWith(s: string, prefix: string) {
    |prefix| <= |s| && s[..|prefix|] == prefix
  }

  predicate OccursAt(s: string, t: string, i: nat) {
    i + |t| <= |s| && s[i..i + |t|] == t
  }

  /** Python's `t in s` for strings. */
  predicate Contains(s: string, t: string) {
    exists i :: 0 <= i <= |s| - |t| && OccursAt(s, t, i)
  }

  /** The first index at or after `i` where `t` occurs (str.find from `i`). */
  function FindFrom(s: string, i: nat, t: string): (r: Option<nat>)
    requires i <= |s|
    ensures r.Some? ==> i <= r.value && OccursAt(s, t, r.value)
    ensures r.Some? ==> forall k :: i <= k < r.value ==> !OccursAt(s, t, k)
    ensures r.None? ==> forall k :: i <= k ==> !OccursAt(s, t, k)
    decreases |s| - i
  {
    if OccursAt(s, t, i) then Some(i)
    else if i < |s| then FindFrom(s, i + 1, t)
    else None
  }

  /** The index of the first non-whitespace character at or after `i`. */
  function SkipSpace(s: string, i: nat): (j: nat)
    requires i <= |s|
    ensures i <= j <= |s|
    ensures forall k :: i <= k < j ==> IsSpace(s[k])
    ensures j == |s| || !IsSpace(s[j])
    decreases |s| - i
  {
    if i < |s| && IsSpace(s[i]) then SkipSpace(s, i + 1) else i
  }

  ghost predicate AllSpace(s: string, lo: nat, hi: nat)
    requires lo <= hi <= |s|
  {
    forall k :: lo <= k < hi ==> IsSpace(s[k])
  }

  /** The pattern tail `\s*%}` matches at `i`: optional whitespace, then "%}". */
  predicate ClosesAt(s: string, i: nat)
    requires i <= |s|
  {
    var j := SkipSpace(s, i);
    j + 2 <= |s| && s[j] == '%' && s[j + 1] == '}'
  }

  lemma SkipSpaceOfSpace(s: string, i: nat)
    requires i < |s|
    ensures IsSpace(s[i]) ==> SkipSpace(s, i) == SkipSpace(s, i + 1)
  {
  }

  /** SkipSpace returns the end of the whitespace run: any `j` that ends a run
      of whitespace started at `i` and is followed by a non-space is it. */
  lemma SkipSpaceUnique(s: string, i: nat, j: nat)
    requires i <= j < |s| && AllSpace(s, i, j) && !IsSpace(s[j])
    ensures SkipSpace(s, i) == j
  {
  }

  lemma SkipSpaceMonotone(s: string, i: nat, k: nat)
    requires i <= k <= |s|
    ensures SkipSpace(s, i) <= SkipSpace(s, k)
  {
  }

  /** One step of a left-to-right copy: `r` copies `c` and then continues as
      `r1`, which copies `mid` and then continues as `tail`. */
  lemma PrependStep(r: string, r1: string, tail: string, c: char, mid: string, whole: string)
    requires r == [c] + r1 && r1 == mid + tail && whole == [c] + mid
    ensures r == whole + tail
  {
    assert [c] + (mid + tail) == ([c] + mid) + tail;
  }

  lemma SliceCons(s: string, i: nat, j: nat)
    requires i < j <= |s|
    ensures s[i..j] == [s[i]] + s[i + 1..j]
  {
  }

  lemma AppendAssoc<T>(a: seq<T>, b: seq<T>, c: seq<T>)
    ensures (a + b) + c == a + (b + c)
  {
  }

  lemma AppendNil<T>(a: seq<T>)
    ensures a + [] == a && [] + a == a && a[|a|..] == []
  {
  }

  lemma WholeSlices(s: string)
    ensures s[0..] == s && s[0..|s|] == s && s[|s|..] == [] && s + [] == s
  {
  }

  lemma SuffixCons(s: string, i: nat)
    requires i < |s|
    ensures s[i..] == [s[i]] + s[i + 1..]
  {
  }

  lemma SliceConcat(s: string, i: nat, j: nat)
    requires i <= j <= |s|
    ensures s[i..] == s[i..j] + s[j..]
  {
  }

  /** A slice starting where `t` occurs starts with `t`'s first character. */
  lemma SliceHead(s: string, t: string, i: nat, j: nat)
    requires OccursAt(s, t, i) && t != [] && i < j <= |s|
    ensures s[i..j][0] == t[0]
  {
    assert s[i..j][0] == s[i] == s[i..i + |t|][0];
  }

  /** str.strip() with no arguments. */
  function StripStart(s: string): (r: string)
    ensures r == [] || !IsSpace(r[0])
    ensures |r| <= |s| && r == s[|s| - |r|..]
    ensures forall k :: 0 <= k < |s| - |r| ==> IsSpace(s[k])
  {
    if s != [] && IsSpace(s[0]) then StripStart(s[1..]) else s
  }

  function StripEnd(s: string): (r: string)
    ensures r == [] || !IsSpace(r[|r| - 1])
    ensures |r| <= |s| && r == s[..|r|]
    ensures forall k :: |r| <= k < |s| ==> IsSpace(s[k])
  {
    if s != [] && IsSpace(s[|s| - 1]) then StripEnd(s[..|s| - 1]) else s
  }

  function Strip(s: string): (r: string)
    ensures |r| <= |s|
    ensures r == [] || (!IsSpace(r[0]) && !IsSpace(r[|r| - 1]))
    ensures (s == [] || (!IsSpace(s[0]) && !IsSpace(s[|s| - 1]))) ==> r == s
  {
    StripEnd(StripStart(s))
  }

  /** A whitespace-free, non-empty token, as str.split() produces. */
  ghost predicate IsToken(t: string) {
    t != [] && forall k :: 0 <= k < |t| ==> !IsSpace(t[k])
  }

  /** Length of the longest whitespace-free prefix of `s`. */
  function TokenLen(s: string): (n: nat)
    ensures n <= |s|
    ensures forall k :: 0 <= k < n ==> !IsSpace(s[k])
    ensures n == |s| || IsSpace(s[n])
  {
    if s != [] && !IsSpace(s[0]) then 1 + TokenLen(s[1..]) else 0
  }

  /** str.split() with no arguments: the maximal whitespace-free runs. */
  function Split(s: string): (r: seq<string>)
    ensures forall i :: 0 <= i < |r| ==> IsToken(r[i])
    decreases |s|
  {
    if s == [] then []
    else if IsSpace(s[0]) then Split(s[1..])
    else
      var n := TokenLen(s);
      [s[..n]] + Split(s[n..])
  }

  /** sep.join(toks). */
  function Join(sep: string, toks: seq<string>): string {
    if toks == [] then []
    else if |toks| == 1 then toks[0]
    else toks[0] + sep + Join(sep, toks[1..])
  }

  lemma {:induction false} TokenLenOfToken(t: string, rest: string)
    requires IsToken(t) && (rest == [] || IsSpace(rest[0]))
    ensures TokenLen(t + rest) == |t|
    decreases |t|
  {
    assert (t + rest)[0] == t[0];
    if |t| > 1 {
      assert (t + rest)[1..] == t[1..] + rest;
      TokenLenOfToken(t[1..], rest);
    } else {
      assert (t + rest)[1..] == rest;
    }
  }

  /** Joining tokens with single spaces and splitting again gives the tokens
      back: the joined text is the canonical single-spaced form of the words. */
  lemma {:induction false} SplitJoin(toks: seq<string>)
    requires forall i :: 0 <= i < |toks| ==> IsToken(toks[i])
    ensures Split(Join(" ", toks)) == toks
  {
    if |toks| == 1 {
      var t := toks[0];
      TokenLenOfToken(t, []);
      assert t + [] == t;
      assert t[..|t|] == t && t[|t|..] == [];
    } else if |toks| > 1 {
      var t, rest := toks[0], Join(" ", toks[1..]);
      var s := t + " " + rest;
      assert s == t + (" " + rest);
      TokenLenOfToken(t, " " + rest);
      assert s[..|t|] == t;
      assert s[|t|..] == " " + rest;
      assert (" " + rest)[1..] == rest;
      SplitJoin(toks[1..]);
      assert Split(s) == [t] + Split(" " + rest);
      assert [t] + toks[1..] == toks;
    }
  }

  /** The characters of `s` that are not whitespace, in order. */
  function NonSpace(s: string): string {
    if s == [] then []
    else (if IsSpace(s[0]) then [] else [s[0]]) + NonSpace(s[1..])
  }

  /** The tokens written one after another. */
  function Concat(toks: seq<string>): string {
    if toks == [] then [] else toks[0] + Concat(toks[1..])
  }

  /** str.split() loses only whitespace: its tokens, run together, are the
      non-space characters of the text in their order. */
  lemma {:induction false} SplitKeepsText(s: string)
    ensures Concat(Split(s)) == NonSpace(s)
    decreases |s|
  {
    if s != [] {
      if IsSpace(s[0]) {
        SplitKeepsText(s[1..]);
      } else {
        var n := TokenLen(s);
        SplitKeepsText(s[n..]);
        NonSpaceOfRun(s, n);
        assert Concat(Split(s)) == s[..n] + Concat(Split(s[n..]));
      }
    }
  }

  lemma {:induction false} NonSpaceOfRun(s: string, n: nat)
    requires n <= |s| && forall k :: 0 <= k < n ==> !IsSpace(s[k])
    ensures NonSpace(s) == s[..n] + NonSpace(s[n..])
    decreases n
  {
    if n == 0 {
      assert s[..0] + NonSpace(s[0..]) == NonSpace(s[0..]);
      assert s[0..] == s;
    } else {
      NonSpaceOfRun(s[1..], n - 1);
      assert s[1..][n - 1..] == s[n..];
      assert s[1..][..n - 1] == s[1..n];
      SliceCons(s, 0, n);
      AppendAssoc([s[0]], s[1..n], NonSpace(s[n..]));
    }
  }

  /** A string with a non-space character splits into at least one token. */
  lemma {:induction false} SplitNonEmpty(s: string)
    requires s != [] && !IsSpace(s[0])
    ensures Split(s) != []
  {
  }

  /** Python's p.rfind(c) + 1: the index just past the last `c`, 0 if none. */
  function AfterLast(p: string, c: char): (r: nat)
    ensures r <= |p|
    ensures forall k :: r <= k < |p| ==> p[k] != c
    ensures r > 0 ==> p[r - 1] == c
  {
    if p == [] then 0
    else if p[|p| - 1] == c then |p|
    else AfterLast(p[..|p| - 1], c)
  }

  lemma {:induction false} AfterLastOfPrefix(p: string, c: char, n: nat)
    requires AfterLast(p, c) <= n <= |p|
    ensures AfterLast(p[..n], c) == AfterLast(p, c)
    decreases |p|
  {
    if n < |p| {
      assert p[|p| - 1] != c;
      assert p[..|p| - 1][..n] == p[..n];
      AfterLastOfPrefix(p[..|p| - 1], c, n);
    } else {
      assert p[..n] == p;
    }
  }

  /** os.path.basename: everything after the last '/'. */
  function Basename(p: string): (r: string)
    ensures |r| <= |p| && r == p[|p| - |r|..]
    ensures forall k :: 0 <= k < |r| ==> r[k] != '/'
    ensures |r| < |p| ==> p[|p| - |r| - 1] == '/'
  {
    p[AfterLast(p, '/')..]
  }

  predicate AllDots(s: string) {
    forall k :: 0 <= k < |s| ==> s[k] == '.'
  }

  /** os.path.splitext (POSIX): the extension starts at the last '.', provided
      that dot lies in the last path segment and some character other than a
      dot precedes it in that segment; otherwise the extension is empty. */
  function SplitExt(p: string): (r: (string, string))
    ensures r.0 + r.1 == p
    ensures r.1 != [] ==> r.1[0] == '.'
    ensures forall k :: 0 <= k < |r.1| ==> r.1[k] != '/'
    ensures forall k :: 1 <= k < |r.1| ==> r.1[k] != '.'
    ensures r.1 != [] ==> !AllDots(Basename(r.0))
    ensures r.1 == [] ==> forall k :: AfterLast(p, '/') <= k < |p| && p[k] == '.'
                            ==> AllDots(p[AfterLast(p, '/')..k])
  {
    var sep := AfterLast(p, '/');
    var dot := AfterLast(p, '.');
    if dot > sep && !AllDots(p[sep..dot - 1]) then
      AfterLastOfPrefix(p, '/', dot - 1);
      assert p[..dot - 1][sep..] == p[sep..dot - 1];
      (p[..dot - 1], p[dot - 1..])
    else
      assert forall k :: sep <= k < |p| && p[k] == '.' ==> AllDots(p[sep..k]) by {
        forall k | sep <= k < |p| && p[k] == '.' ensures AllDots(p[sep..k]) {
          assert k < dot;
          forall t | 0 <= t < k - sep ensures p[sep..k][t] == '.' {
            assert p[sep..k][t] == p[sep..dot - 1][t];
          }
        }
      }
      (p, [])
  }
}
