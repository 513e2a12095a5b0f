/** The few Go `strings` operations the chat server and client rely on,
    stated over `seq<char>`. All separators and prefixes used by the
    program are ASCII, so byte and character positions agree. */
module Text {

  /** `strings.HasPrefix(s, prefix)` */
  predicate HasPrefix(s: string, prefix: string) {
    |prefix| <= |s| && s[..|prefix|] == prefix
  }

  /** Two texts that differ at position `k` are not equal, and neither
      starts with the other. */
  lemma DiffersAt(s: string, p: string, k: nat)
    requires k < |s| && k < |p| && s[k] != p[k]
    ensures s != p && !HasPrefix(s, p) && !HasPrefix(p, s)
  {
    assert s[..k + 1][k] != p[..k + 1][k];
  }

  /** `strings.TrimPrefix(s, prefix)`: drops the prefix when present,
      otherwise returns `s` unchanged. */
  function TrimPrefix(s: string, prefix: string): (r: string)
    ensures HasPrefix(s, prefix) ==> prefix + r == s
    ensures !HasPrefix(s, prefix) ==> r == s
  {
    if HasPrefix(s, prefix) then s[|prefix|..] else s
  }

  /** `strings.Index(s, string(c))` for a one-character separator:
      the position of the first `c`, or -1 when there is none. */
  function Index(s: string, c: char): (i: int)
    ensures -1 <= i < |s|
    ensures i == -1 <==> c !in s
    ensures 0 <= i ==> s[i] == c && c !in s[..i]
  {
    if s == [] then -1
    else if s[0] == c then 0
    else
      var j := Index(s[1..], c);
      if j == -1 then -1 else (assert s[..j + 1] == [s[0]] + s[1..][..j]; j + 1)
  }

  /** `strings.SplitN(s, string(sep), 2)`: one part when `sep` does not
      occur, otherwise the text before and after its first occurrence. */
  function SplitN2(s: string, sep: char): (parts: seq<string>)
    ensures |parts| == 1 || |parts| == 2
    ensures |parts| == 2 <==> sep in s
    ensures |parts| == 1 ==> parts[0] == s
    ensures |parts| == 2 ==> parts[0] + [sep] + parts[1] == s && sep !in parts[0]
  {
    var i := Index(s, sep);
    if i < 0 then [s] else [s[..i], s[i + 1..]]
  }

  /** Splitting at the first separator undoes joining two fields with it,
      as long as the first field does not itself contain the separator;
      the second field may contain it. */
  lemma SplitJoined(u: string, sep: char, m: string)
    requires sep !in u
    ensures SplitN2(u + [sep] + m, sep) == [u, m]
  {
    var s := u + [sep] + m;
    var i := Index(s, sep);
    assert s[|u|] == sep;
    assert forall j :: 0 <= j < |u| ==> s[j] == u[j];
    assert i == |u| by {
      assert s[..i + 1][|u|] == sep by { if i >= |u| {} }
    }
    assert s[..|u|] == u;
    assert s[|u| + 1..] == m;
  }

  /** `pat` occurs somewhere inside `s` (`strings.Contains`). */
  predicate Occurs(pat: string, s: string) {
    exists i :: 0 <= i <= |s| - |pat| && OccursAt(pat, s, i)
  }

  /** `pat` occurs in `s` starting at position `i`. */
  predicate OccursAt(pat: string, s: string, i: nat)
    requires i + |pat| <= |s|
  {
    s[i..i + |pat|] == pat
  }

  /** A text occurs in any text that contains it as a part. */
  lemma OccursIn(pre: string, pat: string, post: string)
    ensures Occurs(pat, pre + pat + post)
  {
    var s := pre + pat + post;
    assert OccursAt(pat, s, |pre|) by { assert s[|pre|..|pre| + |pat|] == pat; }
  }

  /** An occurrence survives appending text after it. */
  lemma OccursBefore(pat: string, s: string, t: string)
    requires Occurs(pat, s)
    ensures Occurs(pat, s + t)
  {
    var i :| 0 <= i <= |s| - |pat| && OccursAt(pat, s, i);
    assert (s + t)[i..i + |pat|] == s[i..i + |pat|];
    assert OccursAt(pat, s + t, i);
  }

  /** An occurrence survives putting text in front of it. */
  lemma OccursAfter(pat: string, s: string, t: string)
    requires Occurs(pat, t)
    ensures Occurs(pat, s + t)
  {
    var i :| 0 <= i <= |t| - |pat| && OccursAt(pat, t, i);
    assert (s + t)[|s| + i..|s| + i + |pat|] == t[i..i + |pat|];
    assert OccursAt(pat, s + t, |s| + i);
  }

  /** A text can only occur where each of its characters occurs. */
  lemma AbsentCharExcludes(pat: string, s: string, c: char)
    requires c in pat && c !in s
    ensures !Occurs(pat, s)
  {
    var k :| 0 <= k < |pat| && pat[k] == c;
    forall i | 0 <= i <= |s| - |pat|
      ensures !OccursAt(pat, s, i)
    {
      assert s[i..i + |pat|][k] == s[i + k];
    }
  }

  /** A text inside a text that occurs in `s` occurs in `s`. */
  lemma OccursWithin(pat: string, mid: string, s: string)
    requires Occurs(pat, mid) && Occurs(mid, s)
    ensures Occurs(pat, s)
  {
    var i :| 0 <= i <= |mid| - |pat| && OccursAt(pat, mid, i);
    var j :| 0 <= j <= |s| - |mid| && OccursAt(mid, s, j);
    forall k | 0 <= k < |pat|
      ensures s[j + i + k] == pat[k]
    {
      assert s[j..j + |mid|][i + k] == mid[i + k];
      assert mid[i..i + |pat|][k] == pat[k];
    }
    assert s[j + i..j + i + |pat|] == pat;
    assert OccursAt(pat, s, j + i);
  }
}
