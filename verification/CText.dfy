/** C text: strings inside fixed buffers, and the libc searches over them. A `char` stands for one octet. */
module CText {

  datatype Option<+T> = None | Some(value: T)

  /** Where a search ended. */
  datatype Index = Absent | Place(index: nat)

  const UINT32 := 0x1_0000_0000
  const CRLF := "\r\n"
  const BLANK := "\r\n\r\n"

  /** strchr: the index of the first `c`, or the length of `s` when there is none. */
  function IndexOf(s: string, c: char): (i: nat)
    ensures i <= |s|
  {
    IndexFrom(s, c, 0)
  }

  function IndexFrom(s: string, c: char, p: nat): (i: nat)
    requires p <= |s|
    ensures p <= i <= |s|
    decreases |s| - p
  {
    if p == |s| || s[p] == c then p else IndexFrom(s, c, p + 1)
  }

  lemma {:induction false} IndexFromFirst(s: string, c: char, p: nat)
    requires p <= |s|
    ensures var i := IndexFrom(s, c, p); (i < |s| ==> s[i] == c) && forall j | p <= j < i :: s[j] != c
    decreases |s| - p
  {
    if p < |s| && s[p] != c {
      IndexFromFirst(s, c, p + 1);
    }
  }

  lemma IndexFirst(s: string, c: char)
    ensures var i := IndexOf(s, c); (i < |s| ==> s[i] == c) && forall j | 0 <= j < i :: s[j] != c
    ensures IndexOf(s, c) < |s| <==> c in s
  {
    IndexFromFirst(s, c, 0);
  }

  lemma IndexOfIs(s: string, c: char, i: nat)
    requires i <= |s| && (i < |s| ==> s[i] == c) && forall j | 0 <= j < i :: s[j] != c
    ensures IndexOf(s, c) == i
  {
    IndexFirst(s, c);
  }

  /** `pat` occurs in `s` at index `i`. */
  predicate At(s: string, pat: string, i: nat) {
    i + |pat| <= |s| && forall k | 0 <= k < |pat| :: s[i + k] == pat[k]
  }

  /** strstr from a pointer into the text: the first occurrence at or after `p`. */
  function FindFrom(s: string, pat: string, p: nat): (r: Index)
    requires p <= |s|
    ensures r.Place? ==> p <= r.index && r.index + |pat| <= |s| && At(s, pat, r.index)
    decreases |s| - p
  {
    if At(s, pat, p) then Place(p)
    else if p == |s| then Absent
    else FindFrom(s, pat, p + 1)
  }

  /** strstr: where `pat` occurs first. */
  function Find(s: string, pat: string): (r: Index)
    ensures r.Place? ==> r.index + |pat| <= |s| && At(s, pat, r.index)
  {
    FindFrom(s, pat, 0)
  }

  /** No occurrence lies before the one found, and there is none when none is found. */
  lemma {:induction false} FindFromFirst(s: string, pat: string, p: nat)
    requires p <= |s|
    ensures FindFrom(s, pat, p).Place? ==> forall j: nat | p <= j < FindFrom(s, pat, p).index :: !At(s, pat, j)
    ensures FindFrom(s, pat, p).Absent? ==> forall j: nat | p <= j :: !At(s, pat, j)
    decreases |s| - p
  {
    if !At(s, pat, p) && p < |s| {
      FindFromFirst(s, pat, p + 1);
    }
  }

  lemma FindFirst(s: string, pat: string)
    ensures Find(s, pat).Place? ==> forall j: nat | j < Find(s, pat).index :: !At(s, pat, j)
    ensures Find(s, pat).Absent? ==> forall j: nat :: !At(s, pat, j)
  {
    FindFromFirst(s, pat, 0);
  }

  lemma FindFromIs(s: string, pat: string, p: nat, i: nat)
    requires p <= i && At(s, pat, i) && forall j: nat | p <= j < i :: !At(s, pat, j)
    ensures FindFrom(s, pat, p) == Place(i)
  {
    FindFromFirst(s, pat, p);
  }

  lemma AtSuffix(s: string, pat: string, p: nat, j: nat)
    requires p <= |s|
    ensures At(s[p..], pat, j) <==> At(s, pat, p + j)
  {
    if p + j + |pat| <= |s| {
      assert forall k {:trigger pat[k]} | 0 <= k < |pat| :: s[p..][j + k] == s[p + j + k];
    }
  }

  lemma AtCrlf(s: string, i: nat)
    ensures At(s, CRLF, i) <==> i + 1 < |s| && s[i] == '\r' && s[i + 1] == '\n'
  {
    var pat := CRLF;
    assert pat[0] == '\r' && pat[1] == '\n';
    assert At(s, pat, i) ==> s[i + 0] == pat[0] && s[i + 1] == pat[1];
  }

  lemma AtBlank(s: string, i: nat)
    ensures At(s, BLANK, i) <==> i + 3 < |s| && At(s, CRLF, i) && At(s, CRLF, i + 2)
  {
    AtCrlf(s, i);
    AtCrlf(s, i + 2);
    var pat := BLANK;
    assert pat[0] == '\r' && pat[1] == '\n' && pat[2] == '\r' && pat[3] == '\n';
    assert At(s, pat, i) ==> s[i + 0] == pat[0] && s[i + 1] == pat[1] && s[i + 2] == pat[2] && s[i + 3] == pat[3];
  }

  /** The content of a C string stored at the front of `a`: everything before its first NUL. */
  function CStr(a: seq<char>): (s: string)
    ensures '\0' !in s && |s| <= |a| && s == a[..|s|]
    ensures |s| < |a| ==> a[|s|] == '\0'
  {
    IndexFirst(a, '\0');
    a[..IndexOf(a, '\0')]
  }

  /** The part of a C string that fits a buffer of `size` octets together with its NUL. */
  function Cut(s: string, size: nat): string
    requires size > 0
  {
    if |s| >= size then s[..size - 1] else s
  }

  /** At most the first `n` characters. */
  function Prefix(s: string, n: nat): string {
    if |s| <= n then s else s[..n]
  }

  /** `a` with the octets from `at` on replaced by `t`. */
  function Overwrite(a: seq<char>, at: nat, t: seq<char>): (r: seq<char>)
    requires at + |t| <= |a|
    ensures |r| == |a|
    ensures forall k | 0 <= k < |a| :: r[k] == if at <= k < at + |t| then t[k - at] else a[k]
  {
    a[..at] + t + a[at + |t|..]
  }

  lemma CStrIs(a: seq<char>, s: string)
    requires '\0' !in s && |s| < |a| && a[..|s|] == s && a[|s|] == '\0'
    ensures CStr(a) == s
  {
    IndexOfIs(a, '\0', |s|);
  }

  /** Advancing a pointer inside a C string drops characters from its front. */
  lemma CStrDrop(a: seq<char>, i: nat)
    requires i <= |CStr(a)| < |a|
    ensures CStr(a[i..]) == CStr(a)[i..]
  {
    var s := CStr(a);
    assert a[i..][..|s| - i] == s[i..];
    CStrIs(a[i..], s[i..]);
  }

  /** Storing a NUL inside a C string shortens it. */
  lemma CStrChop(a: seq<char>, i: nat)
    requires i <= |CStr(a)| < |a|
    ensures CStr(a[i := '\0']) == CStr(a)[..i]
  {
    var s := CStr(a);
    assert a[i := '\0'][..i] == s[..i];
    CStrIs(a[i := '\0'], s[..i]);
  }

  /** The text just stored is read back. */
  lemma CStrStored(a: seq<char>, at: nat, s: string, size: nat)
    requires '\0' !in s && size > 0 && at + size <= |a|
    ensures |Cut(s, size)| < size
    ensures CStr(Overwrite(a, at, Cut(s, size) + ['\0'])[at..at + size]) == Cut(s, size)
    ensures '\0' in Overwrite(a, at, Cut(s, size) + ['\0'])[at..at + size]
  {
    var c := Cut(s, size);
    var b := Overwrite(a, at, c + ['\0'])[at..at + size];
    assert b[..|c|] == c;
    assert b[|c|] == '\0';
    CStrIs(b, c);
  }

  lemma FindIs(s: string, pat: string, i: nat)
    requires At(s, pat, i)
    requires forall j: nat | j < i :: !At(s, pat, j)
    ensures Find(s, pat) == Place(i)
  {
    FindFirst(s, pat);
  }

  lemma FindNone(s: string, pat: string)
    requires forall j: nat :: !At(s, pat, j)
    ensures Find(s, pat) == Absent
  {
    FindFirst(s, pat);
  }

  lemma NoCrlf(s: string)
    requires '\r' !in s
    ensures Find(s, CRLF).Absent?
  {
    forall j: nat ensures !At(s, CRLF, j) {
      AtCrlf(s, j);
    }
    FindNone(s, CRLF);
  }

  /** Text in which no occurrence starts only shifts the first occurrence. */
  lemma FindSkip(a: string, t: string, pat: string)
    requires forall j: nat | j < |a| :: !At(a + t, pat, j)
    ensures Find(t, pat).Absent? ==> Find(a + t, pat).Absent?
    ensures Find(t, pat).Place? ==> Find(a + t, pat) == Place(|a| + Find(t, pat).index)
  {
    forall j: nat | |a| <= j
      ensures At(a + t, pat, j) <==> At(t, pat, j - |a|)
    {
      assert (a + t)[|a|..] == t;
      AtSuffix(a + t, pat, |a|, j - |a|);
    }
    FindFirst(t, pat);
    match Find(t, pat) {
      case Absent => FindNone(a + t, pat);
      case Place(i) => FindIs(a + t, pat, |a| + i);
    }
  }

  /** fossil__safe_copy: copies as much of `src` as fits into `dst[at..at + size]` and ends it with a NUL. */
  method SafeCopy(dst: array<char>, at: nat, src: Option<string>, size: nat)
    requires at + size <= dst.Length
    requires src.Some? ==> '\0' !in src.value
    modifies dst
    ensures size == 0 ==> dst[..] == old(dst[..])
    ensures size > 0 && src.None? ==> dst[..] == Overwrite(old(dst[..]), at, ['\0'])
    ensures size > 0 && src.Some? ==> dst[..] == Overwrite(old(dst[..]), at, Cut(src.value, size) + ['\0'])
  {
    if size == 0 {
      return;
    }
    if src.None? {
      dst[at] := '\0';
      return;
    }
    var srcLen := |src.value|;
    var copyLen := if srcLen >= size then size - 1 else srcLen;
    forall k | 0 <= k < copyLen {
      dst[at + k] := src.value[k];
    }
    dst[at + copyLen] := '\0';
    assert Cut(src.value, size) == src.value[..copyLen];
  }

  /** Copying a text into a whole buffer, as every fixed field of the structures is filled. */
  method StoreText(dst: array<char>, src: string)
    requires dst.Length > 0 && '\0' !in src
    modifies dst
    ensures CStr(dst[..]) == Cut(src, dst.Length) && '\0' in dst[..]
  {
    ghost var before := dst[..];
    SafeCopy(dst, 0, Some(src), dst.Length);
    CStrStored(before, 0, src, dst.Length);
    assert dst[0..dst.Length] == dst[..];
  }
}
