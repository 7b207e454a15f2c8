/** Option type shared by every module. */
module Wrappers {
  datatype Option<+T> = None | Some(value: T) {
    function GetOr(default: T): T {
      match this
      case Some(v) => v
      case None => default
    }
  }
}

/** The string operations the package code relies on, with Python's meaning
    (`str.startswith`, `str.endswith`, `in`, `str.split`, posix `os.path`). */
module Text {
  import opened Wrappers

  predicate StartsWith(s: string, p: string) {
    |p| <= |s| && s[..|p|] == p
  }

  predicate EndsWith(s: string, p: string) {
    |p| <= |s| && s[|s| - |p|..] == p
  }

  /** `p` occurs in `s` at position `k`. */
  predicate At(s: string, p: string, k: int) {
    0 <= k && k + |p| <= |s| && s[k..k + |p|] == p
  }

  function IndexFrom(s: string, p: string, i: nat): (r: Option<nat>)
    requires i <= |s|
    ensures r.Some? ==> i <= r.value && At(s, p, r.value)
    ensures r.Some? ==> forall k :: i <= k < r.value ==> !At(s, p, k)
    ensures r.None? ==> forall k :: i <= k ==> !At(s, p, k)
    decreases |s| - i
  {
    if At(s, p, i) then Some(i)
    else if i == |s| then None
    else IndexFrom(s, p, i + 1)
  }

  /** First occurrence of `p` in `s` (Python `str.find`, with None for -1). */
  function IndexOf(s: string, p: string): (r: Option<nat>)
    ensures r.Some? ==> At(s, p, r.value) && forall k :: 0 <= k < r.value ==> !At(s, p, k)
    ensures r.None? ==> forall k :: !At(s, p, k)
  {
    IndexFrom(s, p, 0)
  }

  /** Python `p in s` for strings. */
  predicate Contains(s: string, p: string) {
    IndexOf(s, p).Some?
  }

  /** An occurrence in a prefix is an occurrence in the whole. */
  lemma AtPrefix(s: string, p: string, n: nat)
    requires n <= |s|
    ensures forall k :: At(s[..n], p, k) ==> At(s, p, k) && k + |p| <= n
  {
    forall k | At(s[..n], p, k)
      ensures At(s, p, k)
    {
      assert s[..n][k..k + |p|] == s[k..k + |p|];
    }
  }

  /** `s.split(p)[0]`: the text before the first occurrence of `p`, or all of
      `s` when `p` does not occur. No occurrence of `p` starts inside it, and
      for a non-empty `p` it holds none. */
  function Before(s: string, p: string): (r: string)
    ensures StartsWith(s, r)
    ensures forall k :: 0 <= k < |r| ==> !At(s, p, k)
    ensures !Contains(s, p) ==> r == s
    ensures Contains(s, p) ==> StartsWith(s, r + p)
    ensures |p| > 0 ==> !Contains(r, p)
  {
    match IndexOf(s, p)
    case None => s
    case Some(k) =>
      AtPrefix(s, p, k);
      assert s[..k + |p|] == s[..k] + p;
      s[..k]
  }

  /** The text after the first occurrence of `p`; `s.split(p)[1]` is
      `Before(After(s, p), p)`. The separator splits `s` into the text before
      it, itself and this. */
  function After(s: string, p: string): (r: string)
    requires Contains(s, p)
    ensures EndsWith(s, r) && |r| <= |s| - |p|
    ensures s == Before(s, p) + p + r
  {
    var k := IndexOf(s, p).value;
    assert s == s[..k] + s[k..k + |p|] + s[k + |p|..];
    s[k + |p|..]
  }

  /** posix `os.path.basename`: everything after the last '/'. */
  function Basename(s: string): (r: string)
    ensures '/' !in r && EndsWith(s, r)
    ensures |r| < |s| ==> s[|s| - |r| - 1] == '/'
  {
    if s == [] then []
    else if s[|s| - 1] == '/' then []
    else Basename(s[..|s| - 1]) + [s[|s| - 1]]
  }

  /** Index of the last `c` in `s`, or -1 (Python `str.rfind`). */
  function LastIndexOf(s: string, c: char): (r: int)
    ensures -1 <= r < |s|
    ensures r >= 0 ==> s[r] == c
    ensures forall k :: r < k < |s| ==> s[k] != c
  {
    if s == [] then -1
    else if s[|s| - 1] == c then |s| - 1
    else LastIndexOf(s[..|s| - 1], c)
  }

  /** posix `os.path.splitext(p)[0]`: drops the extension, i.e. the text from
      the last '.' of the last path component, unless that component holds only
      dots before it (".bashrc" has no extension). */
  function Stem(p: string): (r: string)
    ensures StartsWith(p, r)
    ensures r != p ==> p[|r|] == '.' && '/' !in p[|r|..] && '.' !in p[|r| + 1..]
    ensures r != p <==> exists i, j :: 0 <= i < j < |p| && p[i] != '.' && p[j] == '.' && '/' !in p[i..]
  {
    var sep := LastIndexOf(p, '/');
    var dot := LastIndexOf(p, '.');
    ExtensionFound(p);
    if dot > sep && exists k :: sep < k < dot && p[k] != '.' then p[..dot] else p
  }

  /** The test `Stem` makes on the last '/' and the last '.' holds exactly
      when the last path component has a '.' after some other character. */
  lemma ExtensionFound(p: string)
    ensures var sep, dot := LastIndexOf(p, '/'), LastIndexOf(p, '.');
      (dot > sep && exists k :: sep < k < dot && p[k] != '.')
      <==> exists i, j :: 0 <= i < j < |p| && p[i] != '.' && p[j] == '.' && '/' !in p[i..]
  {
    var sep, dot := LastIndexOf(p, '/'), LastIndexOf(p, '.');
    if dot > sep && exists k :: sep < k < dot && p[k] != '.' {
      var k :| sep < k < dot && p[k] != '.';
      forall m | 0 <= m < |p| - k
        ensures p[k..][m] != '/'
      {
        assert p[k..][m] == p[k + m];
      }
      assert 0 <= k < dot < |p| && p[k] != '.' && p[dot] == '.' && '/' !in p[k..];
    }
    if exists i, j :: 0 <= i < j < |p| && p[i] != '.' && p[j] == '.' && '/' !in p[i..] {
      var i, j :| 0 <= i < j < |p| && p[i] != '.' && p[j] == '.' && '/' !in p[i..];
      forall m | i <= m < |p|
        ensures p[m] != '/'
      {
        assert p[m] == p[i..][m - i];
      }
      assert sep < i < dot && p[i] != '.';
    }
  }

  /** A derived output name `<stem><suffix>` never names the input file,
      whenever the suffix starts with a character other than '.'. */
  lemma DerivedNameDiffers(p: string, suffix: string)
    requires |suffix| > 0 && suffix[0] != '.'
    ensures Stem(p) + suffix != p
  {
  }

  function DigitChar(d: nat): (c: char)
    requires d < 10
  {
    "0123456789"[d]
  }

  /** Python `str(n)` for a natural number. */
  function NatToString(n: nat): (r: string)
    ensures |r| >= 1 && (n >= 10 ==> |r| >= 2)
    decreases n
  {
    if n < 10 then [DigitChar(n)] else NatToString(n / 10) + [DigitChar(n % 10)]
  }

  lemma {:induction false} NatToStringInjective(a: nat, b: nat)
    requires NatToString(a) == NatToString(b)
    ensures a == b
    decreases a
  {
    var sa, sb := NatToString(a), NatToString(b);
    if a < 10 && b < 10 {
      assert DigitChar(a) == sa[0] == sb[0] == DigitChar(b);
    } else if a >= 10 && b >= 10 {
      assert sa[..|sa| - 1] == NatToString(a / 10);
      assert sb[..|sb| - 1] == NatToString(b / 10);
      NatToStringInjective(a / 10, b / 10);
      assert DigitChar(a % 10) == sa[|sa| - 1] == sb[|sb| - 1] == DigitChar(b % 10);
    }
  }

  /** Wrapping a number between a fixed prefix and suffix is one-to-one, so
      `ppt/slides/slide{n}.xml` names a different part for every `n`. */
  lemma TemplateInjective(pre: string, a: nat, b: nat, post: string)
    requires pre + NatToString(a) + post == pre + NatToString(b) + post
    ensures a == b
  {
    var x, y := pre + NatToString(a) + post, pre + NatToString(b) + post;
    assert |NatToString(a)| == |NatToString(b)|;
    assert NatToString(a) == x[|pre|..|pre| + |NatToString(a)|];
    assert NatToString(b) == y[|pre|..|pre| + |NatToString(b)|];
    NatToStringInjective(a, b);
  }
}
